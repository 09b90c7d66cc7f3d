/** The residue alphabet of protein databases and the translation of
    stored residue bytes into residue letters. */
module ProteinCode {
  import opened Bytes
  import opened Wrappers

  /** Byte value `k` in a `.psq` file stands for residue letter `PROTEIN_CODE[k]`. */
  const PROTEIN_CODE: string := "-ABCDEFGHIKLMNPQRSTVWXYZU*OJ"

  /** The first byte that has no letter: its position and its value. */
  datatype BadResidue = BadResidue(at: nat, value: byte)

  /** `''.join(PROTEIN_CODE[a] for a in bs)`: each byte becomes its letter;
      the first byte of value 28 or more raises an index error. */
  function Translate(bs: seq<byte>): (r: Result<string, BadResidue>)
    ensures r.Success? <==> forall k :: 0 <= k < |bs| ==> bs[k] < |PROTEIN_CODE|
    ensures r.Success? ==> |r.value| == |bs|
    ensures r.Success? ==> forall k :: 0 <= k < |bs| ==> r.value[k] == PROTEIN_CODE[bs[k]]
    ensures r.Failure? ==> r.error.at < |bs| && bs[r.error.at] == r.error.value
                           && r.error.value >= |PROTEIN_CODE|
                           && forall k :: 0 <= k < r.error.at ==> bs[k] < |PROTEIN_CODE|
  {
    if bs == [] then Success([])
    else if bs[0] >= |PROTEIN_CODE| then Failure(BadResidue(0, bs[0]))
    else
      match Translate(bs[1..])
      case Success(rest) => Success([PROTEIN_CODE[bs[0]]] + rest)
      case Failure(bad) => Failure(BadResidue(bad.at + 1, bad.value))
  }

  /** The byte that stands for letter `c`, if `c` is in the alphabet. */
  function CodeOf(c: char): (r: Option<byte>)
    ensures r.Some? ==> r.value < |PROTEIN_CODE| && PROTEIN_CODE[r.value] == c
    ensures r.None? ==> c !in PROTEIN_CODE
  {
    IndexFrom(PROTEIN_CODE, c, 0)
  }

  /** The first position at or after `from` where `table` holds `c`. */
  function IndexFrom(table: string, c: char, from: nat): (r: Option<byte>)
    requires from <= |table| <= 256
    ensures r.Some? ==> from <= r.value < |table| && table[r.value] == c
    ensures r.Some? ==> forall k :: from <= k < r.value ==> table[k] != c
    ensures r.None? ==> forall k :: from <= k < |table| ==> table[k] != c
    decreases |table| - from
  {
    if from == |table| then None
    else if table[from] == c then Some(from)
    else IndexFrom(table, c, from + 1)
  }

  /** No letter occurs twice in the alphabet. */
  lemma AlphabetDistinct()
    ensures forall i, j :: 0 <= i < j < |PROTEIN_CODE| ==> PROTEIN_CODE[i] != PROTEIN_CODE[j]
  {
  }

  /** The bytes that translate to `s`, if every letter of `s` is in the alphabet. */
  function Encode(s: string): (r: Option<seq<byte>>)
  {
    if s == [] then Some([])
    else match (CodeOf(s[0]), Encode(s[1..]))
      case (Some(b), Some(rest)) => Some([b] + rest)
      case _ => None
  }

  lemma {:induction false} TranslateEncode(s: string)
    ensures Encode(s).Some? ==> Translate(Encode(s).value) == Success(s)
  {
    if s != [] && Encode(s).Some? {
      TranslateEncode(s[1..]);
      var bs := Encode(s).value;
      assert bs[1..] == Encode(s[1..]).value;
      assert s == [s[0]] + s[1..];
    }
  }

  lemma {:induction false} EncodeTranslate(bs: seq<byte>)
    ensures Translate(bs).Success? ==> Encode(Translate(bs).value) == Some(bs)
  {
    if bs != [] && Translate(bs).Success? {
      EncodeTranslate(bs[1..]);
      var s := Translate(bs).value;
      assert s[1..] == Translate(bs[1..]).value;
      AlphabetDistinct();
      assert CodeOf(s[0]) == Some(bs[0]);
      assert bs == [bs[0]] + bs[1..];
    }
  }
}
