/** Looking up a GenInfo identifier in the header file: the lazy scan
    for the first header containing `gi|<id>|`, and the eager dictionary
    from the leftmost regex match of every header to its sequence range. */
module HeaderLookup {
  import opened Bytes
  import opened Wrappers
  import opened GiPattern
  import opened IndexLayout

  /** `seek(e.start)` then `read(e.length)` reads exactly the range. */
  predicate InBounds(e: Entry, size: nat)
  {
    0 <= e.length && e.start + e.length <= size
  }

  predicate AllInBounds(table: seq<Entry>, size: nat)
  {
    forall j :: 0 <= j < |table| ==> InBounds(table[j], size)
  }

  /** The bytes the range `e` of `data` holds. */
  function Slice(data: seq<byte>, e: Entry): (r: seq<byte>)
    requires InBounds(e, |data|)
  {
    data[e.start..e.start + e.length]
  }

  /** Header `j` contains the bytes `needle`. */
  predicate HeaderHas(headers: seq<byte>, hOff: seq<Entry>, j: nat, needle: seq<byte>)
    requires AllInBounds(hOff, |headers|) && j < |hOff|
  {
    Contains(Slice(headers, hOff[j]), needle)
  }

  /** The first header at or after `from` that contains `needle`. */
  function FirstHeaderWith(headers: seq<byte>, hOff: seq<Entry>, needle: seq<byte>, from: nat): (r: Option<nat>)
    requires AllInBounds(hOff, |headers|) && from <= |hOff|
    ensures r.Some? ==> from <= r.value < |hOff| && HeaderHas(headers, hOff, r.value, needle)
    ensures r.Some? ==> forall k :: from <= k < r.value ==> !HeaderHas(headers, hOff, k, needle)
    ensures r.None? ==> forall k :: from <= k < |hOff| ==> !HeaderHas(headers, hOff, k, needle)
    decreases |hOff| - from
  {
    if from == |hOff| then None
    else if HeaderHas(headers, hOff, from, needle) then Some(from)
    else FirstHeaderWith(headers, hOff, needle, from + 1)
  }

  /** What the scan without a dictionary returns: the sequence range of
      the first header containing `needle`, or nothing. */
  function LazyPosition(headers: seq<byte>, hOff: seq<Entry>, sOff: seq<Entry>, needle: seq<byte>): Option<Entry>
    requires AllInBounds(hOff, |headers|) && |sOff| == |hOff|
  {
    match FirstHeaderWith(headers, hOff, needle, 0)
    case Some(j) => Some(sOff[j])
    case None => None
  }

  /** The group of the leftmost `gi|digits|` match in header `j`. */
  function HeaderDigits(headers: seq<byte>, hOff: seq<Entry>, j: nat): Option<seq<byte>>
    requires AllInBounds(hOff, |headers|) && j < |hOff|
  {
    match Search(Slice(headers, hOff[j]))
    case Some(m) => Some(m.digits)
    case None => None
  }

  /** The search result of every header, in table order. */
  function AllHeaderDigits(headers: seq<byte>, hOff: seq<Entry>): (found: seq<Option<seq<byte>>>)
    requires AllInBounds(hOff, |headers|)
  {
    seq(|hOff|, j requires 0 <= j < |hOff| => HeaderDigits(headers, hOff, j))
  }

  /** The dictionary after reading the first `n` headers in order, where
      `found[j]` is the search result of header `j`: each header's digits
      map to its sequence range, later headers overwriting earlier ones;
      or the first header without a match. */
  function EagerIndex(found: seq<Option<seq<byte>>>, sOff: seq<Entry>, n: nat): (r: Result<map<seq<byte>, Entry>, nat>)
    requires |sOff| == |found| && n <= |found|
    ensures r.Failure? ==> r.error < n && found[r.error].None?
    ensures r.Failure? ==> forall k :: 0 <= k < r.error ==> found[k].Some?
    ensures r.Success? ==> forall k :: 0 <= k < n ==> found[k].Some?
  {
    if n == 0 then Success(map[])
    else
      match EagerIndex(found, sOff, n - 1)
      case Failure(j) => Failure(j)
      case Success(m) =>
        match found[n - 1]
        case None => Failure(n - 1)
        case Some(d) => Success(m[d := sOff[n - 1]])
  }

  /** Reading stops at the first header without a match. */
  lemma {:induction false} EagerFailsAt(found: seq<Option<seq<byte>>>, sOff: seq<Entry>, n: nat, j: nat)
    requires |sOff| == |found| && j < n <= |found|
    requires EagerIndex(found, sOff, j).Success? && found[j].None?
    ensures EagerIndex(found, sOff, n) == Failure(j)
  {
    if j < n - 1 {
      EagerFailsAt(found, sOff, n - 1, j);
    }
  }

  /** Every dictionary entry comes from a header that matched with those
      digits, and holds that header's sequence range. */
  lemma {:induction false} EagerEntrySource(found: seq<Option<seq<byte>>>, sOff: seq<Entry>, n: nat, key: seq<byte>)
    requires |sOff| == |found| && n <= |found|
    requires EagerIndex(found, sOff, n).Success?
    requires key in EagerIndex(found, sOff, n).value
    ensures exists j :: 0 <= j < n && found[j] == Some(key) && EagerIndex(found, sOff, n).value[key] == sOff[j]
  {
    var prev := EagerIndex(found, sOff, n - 1).value;
    var d := found[n - 1].value;
    assert EagerIndex(found, sOff, n).value == prev[d := sOff[n - 1]];
    if key == d {
      assert found[n - 1] == Some(key);
    } else {
      EagerEntrySource(found, sOff, n - 1, key);
    }
  }

  /** The digits of every header read so far are a key of the dictionary. */
  lemma {:induction false} EagerHasKey(found: seq<Option<seq<byte>>>, sOff: seq<Entry>, n: nat, j: nat)
    requires |sOff| == |found| && j < n <= |found|
    requires EagerIndex(found, sOff, n).Success?
    ensures found[j].Some? && found[j].value in EagerIndex(found, sOff, n).value
  {
    if j < n - 1 {
      EagerHasKey(found, sOff, n - 1, j);
    }
  }

  /** The last header whose digits are `found[j]` decides the dictionary entry. */
  lemma {:induction false} EagerLastWins(found: seq<Option<seq<byte>>>, sOff: seq<Entry>, n: nat, j: nat)
    requires |sOff| == |found| && j < n <= |found|
    requires EagerIndex(found, sOff, n).Success?
    requires forall k :: j < k < n ==> found[k] != found[j]
    ensures found[j].Some? && found[j].value in EagerIndex(found, sOff, n).value
    ensures EagerIndex(found, sOff, n).value[found[j].value] == sOff[j]
  {
    if j < n - 1 {
      EagerLastWins(found, sOff, n - 1, j);
    }
  }

  /** Where the two lookups agree: when header `j` is the only header
      containing `gi|<seqid>|` and its leftmost match is that identifier,
      the dictionary and the scan both give sequence range `j`. */
  lemma EagerAgreesWithLazy(headers: seq<byte>, hOff: seq<Entry>, sOff: seq<Entry>, seqid: int, j: nat)
    requires AllInBounds(hOff, |headers|) && |sOff| == |hOff| && j < |hOff|
    requires EagerIndex(AllHeaderDigits(headers, hOff), sOff, |hOff|).Success?
    requires HeaderDigits(headers, hOff, j) == Some(Decimal(seqid))
    requires forall k :: 0 <= k < |hOff| && k != j ==> !HeaderHas(headers, hOff, k, Needle(seqid))
    ensures Decimal(seqid) in EagerIndex(AllHeaderDigits(headers, hOff), sOff, |hOff|).value
    ensures EagerIndex(AllHeaderDigits(headers, hOff), sOff, |hOff|).value[Decimal(seqid)] == sOff[j]
    ensures LazyPosition(headers, hOff, sOff, Needle(seqid)) == Some(sOff[j])
  {
    var found := AllHeaderDigits(headers, hOff);
    forall k | 0 <= k < |hOff| && found[k] == Some(Decimal(seqid))
      ensures HeaderHas(headers, hOff, k, Needle(seqid))
    {
      var m := Search(Slice(headers, hOff[k])).value;
      MatchContainsToken(Slice(headers, hOff[k]), m.start, m.digits);
    }
    EagerLastWins(found, sOff, |hOff|, j);
  }

  /** A header holding two gi tokens, `gi|1|gi|2|`: the eager dictionary
      records only the leftmost digits, while the lazy scan finds both. */
  lemma TwoGiHeader()
    ensures var hOff := [Entry(0, 10)];
            var headers := [103, 105, 124, 49, 124, 103, 105, 124, 50, 124];
            && AllHeaderDigits(headers, hOff) == [Some([49])]
            && EagerIndex(AllHeaderDigits(headers, hOff), [Entry(0, 7)], 1) == Success(map[[49] := Entry(0, 7)])
            && [50] !in EagerIndex(AllHeaderDigits(headers, hOff), [Entry(0, 7)], 1).value
            && FirstHeaderWith(headers, hOff, GiToken([50]), 0) == Some(0)
  {
    var headers: seq<byte> := [103, 105, 124, 49, 124, 103, 105, 124, 50, 124];
    var hOff := [Entry(0, 10)];
    assert Slice(headers, hOff[0]) == headers;
    assert headers[0..3] == GI_BAR;
    assert DigitRun(headers, 4) == 0;
    assert headers[3..4] == [49];
    assert MatchAt(headers, 0) == Some([49]);
    assert OccursAt(headers, GiToken([50]), 5);
  }
}
