/**
 * The public draft of an agent turn: a rolling tail of the text streamed so far, cut to at most 8192
 * bytes of UTF-8 after every chunk, on a character boundary.
 */
module DraftTail {

  import opened Utf8

  const LIMIT := 8192

  /** The longest suffix of at most `LIMIT` bytes. */
  function Tail(text: string): string {
    if |Encode(text)| <= LIMIT then text else Tail(text[1..])
  }

  function Stream(chunks: seq<string>): string {
    if chunks == [] then "" else Stream(chunks[..|chunks| - 1]) + chunks[|chunks| - 1]
  }

  /** How many characters the cut drops. */
  function Dropped(text: string): (k: nat)
    ensures k <= |text| && Tail(text) == text[k..]
  {
    if |Encode(text)| <= LIMIT then 0 else Dropped(text[1..]) + 1
  }

  lemma {:induction false} TailFits(text: string)
    ensures |Encode(Tail(text))| <= LIMIT
    ensures var k := Dropped(text); k > 0 ==> |Encode(text[k - 1..])| > LIMIT
  {
    if |Encode(text)| > LIMIT {
      TailFits(text[1..]);
      var k := Dropped(text[1..]);
      if k > 0 { assert text[1..][k - 1..] == text[k..]; }
    }
  }

  /** Cutting early changes nothing: a tail continued and cut is the whole continued and cut. */
  lemma {:induction false} TailOfTail(a: string, b: string)
    ensures Tail(Tail(a) + b) == Tail(a + b)
  {
    if |Encode(a)| > LIMIT {
      TailOfTail(a[1..], b);
      EncodeConcat(a, b);
      assert (a + b)[1..] == a[1..] + b;
    }
  }

  // ---------------------------------------------------------------- the cut on bytes

  lemma SplitEncoding(text: string, k: nat)
    requires k <= |text|
    ensures Encode(text) == Encode(text[..k]) + Encode(text[k..])
  {
    hide Encode;
    EncodeConcat(text[..k], text[k..]);
    assert text == text[..k] + text[k..];
  }

  /** A character begins with a leading byte and goes on with continuation bytes. */
  lemma BoundaryBytes(text: string, k: nat)
    requires k < |text|
    ensures var at := |Encode(text[..k])|;
      var next := |Encode(text[..k + 1])|;
      && at < next <= |Encode(text)|
      && !Continuation(Encode(text)[at])
      && forall i :: at < i < next ==> Continuation(Encode(text)[i])
  {
    var c := EncodeChar(text[k]);
    CharShape(text[k]);
    SplitEncoding(text, k);
    EncodeConcat(text[..k], [text[k]]);
    assert text[..k + 1] == text[..k] + [text[k]];
    OneChar(text[k]);
    assert text[k..] != "" && text[k..][0] == text[k];
    assert Encode(text[k..]) == c + Encode(text[k..][1..]);
    var at := |Encode(text[..k])|;
    hide EncodeChar, Encode, Continuation;
    assert forall i :: 0 <= i < |c| ==> Encode(text)[at + i] == c[i];
  }

  lemma OneChar(c: char)
    ensures Encode([c]) == EncodeChar(c)
  {
    assert [c][1..] == "";
    assert EncodeChar(c) + [] == EncodeChar(c);
  }

  /** The byte offset at which the tail begins, and what the scan from `|bytes| - LIMIT` meets before it. */
  lemma TailOffset(text: string)
    requires |Encode(text)| > LIMIT
    ensures var at := |Encode(text[..Dropped(text)])|;
      && |Encode(text)| - LIMIT <= at <= |Encode(text)|
      && Encode(text)[at..] == Encode(Tail(text))
      && (at < |Encode(text)| ==> !Continuation(Encode(text)[at]))
      && forall i :: |Encode(text)| - LIMIT <= i < at ==> Continuation(Encode(text)[i])
  {
    var k := Dropped(text);
    TailFits(text);
    SplitEncoding(text, k);
    if k < |text| {
      BoundaryBytes(text, k);
    }
    if k > 0 {
      SplitEncoding(text, k - 1);
      BoundaryBytes(text, k - 1);
    }
    hide Encode, Tail, Continuation;
  }

  /** One cut, as it is made on the encoded buffer. */
  method CutTail(text: string) returns (kept: string)
    requires |Encode(text)| > LIMIT
    ensures kept == Tail(text)
  {
    hide *;
    var buf := Encode(text);
    TailOffset(text);
    DecodeEncode(Tail(text));
    ghost var at := |Encode(text[..Dropped(text)])|;
    var start := |buf| - LIMIT;
    while start < |buf| && Continuation(buf[start])
      invariant |buf| - LIMIT <= start <= at
    {
      start := start + 1;
    }
    kept := Decode(buf[start..]);
  }

  /**
   * Cutting after every chunk leaves what cutting the whole stream once would leave, and the flag says
   * exactly whether the stream was longer than the limit.
   */
  method KeepDraft(chunks: seq<string>) returns (draft: string, truncated: bool)
    ensures draft == Tail(Stream(chunks))
    ensures truncated <==> |Encode(Stream(chunks))| > LIMIT
  {
    draft, truncated := "", false;
    for i := 0 to |chunks|
      invariant draft == Tail(Stream(chunks[..i]))
      invariant truncated <==> |Encode(Stream(chunks[..i]))| > LIMIT
    {
      ghost var stream := Stream(chunks[..i]);
      assert chunks[..i + 1][..i] == chunks[..i];
      TailOfTail(stream, chunks[i]);
      EncodeConcat(stream, chunks[i]);
      draft := draft + chunks[i];
      if |Encode(draft)| > LIMIT {
        draft := CutTail(draft);
        truncated := true;
      }
    }
    assert chunks[..|chunks|] == chunks;
  }

  /**
   * What is kept, in bytes: the longest suffix of the encoded stream that has at most `LIMIT` bytes and
   * starts on a character boundary. Any such suffix is a suffix of it.
   */
  lemma TailIsLongest(text: string, from: nat)
    requires from <= |Encode(text)| && |Encode(text)| - from <= LIMIT
    requires from < |Encode(text)| ==> !Continuation(Encode(text)[from])
    ensures |Encode(text)| - from <= |Encode(Tail(text))| <= LIMIT
    ensures Encode(Tail(text)) == Encode(text)[|Encode(text)| - |Encode(Tail(text))|..]
  {
    TailFits(text);
    if |Encode(text)| > LIMIT {
      TailOffset(text);
      hide Encode, Tail, Dropped, Continuation;
    }
  }
}
