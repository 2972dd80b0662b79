/**
 * The tables the generator emits for a FROM constraint, and the index width it
 * pairs with them: exactly what the PER string codec relies on.
 */
module Alphabet {
  import opened Bits
  import opened Integers
  import opened PerTypes
  import opened PerEncode

  // A permitted alphabet as the resolver hands it over: ascending characters.
  predicate Ascending(alphabet: seq<Byte>) {
    forall i, j :: 0 <= i < j < |alphabet| ==> alphabet[i] < alphabet[j]
  }

  lemma {:induction false} AscendingBound(alphabet: seq<Byte>, i: nat)
    requires Ascending(alphabet) && i < |alphabet|
    ensures alphabet[i] >= i
  {
    if i > 0 { AscendingBound(alphabet, i - 1); }
  }

  // Fills the encode table; the decode table is the alphabet itself.
  method EmitTables(alphabet: seq<Byte>) returns (enc: array<nat>)
    requires Ascending(alphabet)
    ensures fresh(enc) && enc.Length == 256 && TableInverts(alphabet, enc[..])
  {
    enc := new nat[256](_ => NO_CHAR);
    if alphabet != [] { AscendingBound(alphabet, |alphabet| - 1); }
    for i := 0 to |alphabet|
      invariant forall k :: 0 <= k < i ==> enc[alphabet[k]] == k
      invariant forall c :: 0 <= c < 256 && enc[c] != NO_CHAR ==> enc[c] < i && alphabet[enc[c]] == c
    {
      enc[alphabet[i]] := i;
    }
    assert forall c {:trigger enc[..][c]} :: 0 <= c < 256 ==> enc[..][c] == enc[c];
  }

  // The width of an alphabet index, never zero.
  function IndexWidth(alphabetSize: nat): nat {
    if alphabetSize <= 2 then 1 else RangeBits(alphabetSize)
  }

  method AlphabetBitsFor(alphabetSize: nat) returns (bits: nat)
    ensures bits == IndexWidth(alphabetSize)
  {
    bits := 0;
    var r := alphabetSize - 1;
    while r > 0
      invariant r >= -1
      invariant bits + RangeBits(r + 1) == RangeBits(alphabetSize)
      invariant r == -1 ==> alphabetSize == 0
    {
      r := r / 2;
      bits := bits + 1;
    }
    if bits == 0 { bits := 1; }
    if alphabetSize == 2 { assert RangeBits(2) == 1 + RangeBits(1); }
  }

  // The least width holding every index.
  lemma {:induction false} RangeBitsLeast(range: nat, bits: nat)
    ensures range <= Pow2(bits) <==> RangeBits(range) <= bits
    decreases range
  {
    if range > 1 {
      if bits > 0 { RangeBitsLeast((range + 1) / 2, bits - 1); }
    }
  }

  // Table and width together make a well-formed character code, and no
  // narrower index would do.
  lemma EmittedCodeWf(alphabet: seq<Byte>, table: seq<nat>, width: nat)
    requires TableInverts(alphabet, table) && |alphabet| < 256 && width > 0
    ensures CodeWf(Indexed(alphabet, table, IndexWidth(|alphabet|), width), width)
    ensures forall w :: 0 < w < IndexWidth(|alphabet|) ==> |alphabet| > Pow2(w)
  {
    RangeBitsLeast(|alphabet|, IndexWidth(|alphabet|));
    if |alphabet| == 2 { assert RangeBits(2) == 1 + RangeBits(1); }
    forall w | 0 < w < IndexWidth(|alphabet|) ensures |alphabet| > Pow2(w) {
      RangeBitsLeast(|alphabet|, w);
    }
  }
}
