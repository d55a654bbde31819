/** Octets, the vocabulary of every wire format in the model, and streams that arrive in pieces. */
module Bytes {
  type Byte = x: int | 0 <= x < 256

  type Octets = seq<Byte>

  /** These octets are that text, character for character. */
  predicate IsText(s: Octets, text: string) { |s| == |text| && forall i :: 0 <= i < |s| ==> s[i] == text[i] as int }

  /** Where the first `b` is, or `|s|` when there is none. */
  function FirstIndex(s: Octets, b: Byte): (i: nat)
    ensures i <= |s| && b !in s[..i] && (i < |s| ==> s[i] == b)
  {
    if s == [] || s[0] == b then 0
    else
      var i := 1 + FirstIndex(s[1..], b);
      assert s[..i] == [s[0]] + s[1..][..i - 1];
      i
  }

  lemma {:induction false} FirstIndexOf(a: Octets, b: Byte, c: Octets)
    requires b !in a
    ensures FirstIndex(a + [b] + c, b) == |a|
    decreases |a|
  {
    var s := a + [b] + c;
    if a != [] {
      assert s[1..] == a[1..] + [b] + c;
      FirstIndexOf(a[1..], b, c);
    }
  }

  lemma FirstIndexNone(s: Octets, b: Byte)
    requires b !in s
    ensures FirstIndex(s, b) == |s|
  {
  }

  // ----- streams in pieces -----------------------------------------------------------------------

  /** The bytes of a stream that arrived as these chunks. */
  function Concat(chunks: seq<Octets>): Octets {
    if chunks == [] then [] else chunks[0] + Concat(chunks[1..])
  }

  /** What reads into a buffer of `size` bytes can return: something, and no more than fits. */
  ghost predicate ReadsOf(chunks: seq<Octets>, size: nat) {
    forall c :: c in chunks ==> 1 <= |c| <= size
  }

  lemma {:induction false} ConcatSnoc(chunks: seq<Octets>, i: nat)
    requires i < |chunks|
    ensures Concat(chunks[..i + 1]) == Concat(chunks[..i]) + chunks[i]
    decreases |chunks|
  {
    if i == 0 {
      assert chunks[..1][1..] == [] && Concat(chunks[..1]) == chunks[0] + [];
    } else {
      ConcatSnoc(chunks[1..], i - 1);
      assert chunks[..i + 1][1..] == chunks[1..][..i] && chunks[..i][1..] == chunks[1..][..i - 1];
    }
  }

  lemma {:induction false} ConcatSplit(chunks: seq<Octets>, i: nat)
    requires i <= |chunks|
    ensures Concat(chunks) == Concat(chunks[..i]) + Concat(chunks[i..])
    decreases |chunks|
  {
    if i == 0 {
      assert chunks[0..] == chunks;
    } else {
      ConcatSplit(chunks[1..], i - 1);
      assert chunks[..i][1..] == chunks[1..][..i - 1] && chunks[i..] == chunks[1..][i - 1..];
    }
  }

  lemma ConcatAppend(a: seq<Octets>, b: seq<Octets>)
    ensures Concat(a + b) == Concat(a) + Concat(b)
  {
    ConcatSplit(a + b, |a|);
    assert (a + b)[..|a|] == a && (a + b)[|a|..] == b;
  }

  /** Full-size reads, and a shorter last one. */
  function Cut(s: Octets, size: nat): seq<Octets>
    requires size > 0
  {
    if s == [] then [] else if |s| <= size then [s] else [s[..size]] + Cut(s[size..], size)
  }

  lemma {:induction false} CutConcat(s: Octets, size: nat)
    requires size > 0
    ensures ReadsOf(Cut(s, size), size) && Concat(Cut(s, size)) == s
    decreases |s|
  {
    if |s| > size {
      CutConcat(s[size..], size);
      assert Cut(s, size)[1..] == Cut(s[size..], size);
      assert s == s[..size] + s[size..];
    } else if s != [] {
      assert Concat([s]) == s + Concat([s][1..]);
    }
  }
}
