/** Facts about slicing concatenated text, shared by the parsers. */
module Text {
  /** The middle of three concatenated pieces, and the character right after it. */
  lemma Pieces(pre: string, mid: string, post: string)
    ensures (pre + mid + post)[|pre|..|pre| + |mid|] == mid
    ensures post != [] ==> (pre + mid + post)[|pre| + |mid|] == post[0]
  {
  }

  /** The second of four left-joined pieces, and the character right after it. */
  lemma Pieces4(a: string, b: string, c: string, d: string)
    ensures (a + b + c + d)[|a|..|a| + |b|] == b
    ensures c + d != [] ==> (a + b + c + d)[|a| + |b|] == (c + d)[0]
  {
    assert a + b + c + d == a + b + (c + d);
    Pieces(a, b, c + d);
  }

  /** The second of five left-joined pieces, and the character right after it. */
  lemma Pieces5(a: string, b: string, c: string, d: string, e: string)
    ensures (a + b + c + d + e)[|a|..|a| + |b|] == b
    ensures c + d + e != [] ==> (a + b + c + d + e)[|a| + |b|] == (c + d + e)[0]
  {
    assert a + b + c + d + e == a + b + (c + d + e);
    Pieces(a, b, c + d + e);
  }
}
