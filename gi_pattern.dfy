/** The two ways header bytes are searched for a GenInfo identifier:
    the regular expression `gi\|(\d{1,9})\|` (leftmost match, one group)
    and the plain substring `gi|<decimal id>|`. */
module GiPattern {
  import opened Bytes
  import opened Wrappers

  /** ASCII `gi|`. */
  const GI_BAR: seq<byte> := [103, 105, 124]
  /** ASCII `|`. */
  const BAR: byte := 124
  /** ASCII `-`. */
  const MINUS: byte := 45

  /** `\d` of a bytes pattern: an ASCII decimal digit. */
  predicate IsDigit(b: byte)
  {
    48 <= b <= 57
  }

  predicate AllDigits(s: seq<byte>)
  {
    forall k :: 0 <= k < |s| ==> IsDigit(s[k])
  }

  /** `b'gi|' + d + b'|'`. */
  function GiToken(d: seq<byte>): seq<byte>
  {
    GI_BAR + d + [BAR]
  }

  /** Reference reading of the pattern: `gi\|(\d{1,9})\|` matches at `p`
      with group `d`. */
  ghost predicate IsMatchAt(h: seq<byte>, p: nat, d: seq<byte>)
  {
    1 <= |d| <= 9 && AllDigits(d) && OccursAt(h, GiToken(d), p)
  }

  /** Length of the run of digits that starts at `i`. */
  function DigitRun(h: seq<byte>, i: nat): (n: nat)
    requires i <= |h|
    ensures i + n <= |h|
    ensures forall k :: i <= k < i + n ==> IsDigit(h[k])
    ensures i + n == |h| || !IsDigit(h[i + n])
    decreases |h| - i
  {
    if i < |h| && IsDigit(h[i]) then 1 + DigitRun(h, i + 1) else 0
  }

  /** The group the pattern captures when matched at `p`. The greedy
      `\d{1,9}` followed by `|` can only succeed with the whole digit
      run, so backtracking never finds another match at `p`. */
  function MatchAt(h: seq<byte>, p: nat): Option<seq<byte>>
  {
    if p + 3 <= |h| && h[p..p + 3] == GI_BAR then
      var n := DigitRun(h, p + 3);
      if 1 <= n <= 9 && p + 3 + n < |h| && h[p + 3 + n] == BAR
      then Some(h[p + 3..p + 3 + n])
      else None
    else None
  }

  /** `MatchAt` captures exactly the groups the pattern admits. */
  lemma MatchAtIff(h: seq<byte>, p: nat, d: seq<byte>)
    ensures MatchAt(h, p) == Some(d) <==> IsMatchAt(h, p, d)
  {
    var t := GiToken(d);
    if MatchAt(h, p) == Some(d) {
      assert h[p..p + |t|] == h[p..p + 3] + h[p + 3..p + 3 + |d|] + [h[p + 3 + |d|]];
    }
    if IsMatchAt(h, p, d) {
      assert h[p..p + 3] == t[..3];
      forall k | 0 <= k < |d|
        ensures h[p + 3 + k] == d[k]
      {
        assert h[p + 3 + k] == t[3 + k];
      }
      assert h[p + 3 + |d|] == t[3 + |d|] == BAR;
      var n := DigitRun(h, p + 3);
      if n < |d| {
        assert false;
      } else if n > |d| {
        assert false;
      }
      assert h[p + 3..p + 3 + n] == d;
    }
  }

  /** A match of the pattern is an occurrence of its token. */
  lemma MatchContainsToken(h: seq<byte>, p: nat, d: seq<byte>)
    requires MatchAt(h, p) == Some(d)
    ensures Contains(h, GiToken(d))
  {
    MatchAtIff(h, p, d);
  }

  datatype GiMatch = GiMatch(start: nat, digits: seq<byte>)

  /** `pattern.search(h[p:])` relative to `h`: the leftmost match at or after `p`. */
  function SearchFrom(h: seq<byte>, p: nat): (r: Option<GiMatch>)
    requires p <= |h|
    ensures r.Some? ==> p <= r.value.start <= |h| && MatchAt(h, r.value.start) == Some(r.value.digits)
    ensures r.Some? ==> forall q :: p <= q < r.value.start ==> MatchAt(h, q).None?
    ensures r.None? ==> forall q :: p <= q ==> MatchAt(h, q).None?
    decreases |h| - p
  {
    if MatchAt(h, p).Some? then Some(GiMatch(p, MatchAt(h, p).value))
    else if p == |h| then None
    else SearchFrom(h, p + 1)
  }

  /** `re.compile(b'gi\|(\d{1,9})\|').search(h)`. */
  function Search(h: seq<byte>): Option<GiMatch>
  {
    SearchFrom(h, 0)
  }

  /** `Search` finds the leftmost match of the pattern, or reports that
      there is none. */
  lemma SearchIsLeftmost(h: seq<byte>)
    ensures Search(h).Some? ==> IsMatchAt(h, Search(h).value.start, Search(h).value.digits)
    ensures Search(h).Some? ==> forall q: nat, d :: q < Search(h).value.start ==> !IsMatchAt(h, q, d)
    ensures Search(h).None? ==> forall q: nat, d :: !IsMatchAt(h, q, d)
  {
    var r := Search(h);
    if r.Some? {
      MatchAtIff(h, r.value.start, r.value.digits);
    }
    forall q: nat, d | (r.Some? && q < r.value.start) || r.None?
      ensures !IsMatchAt(h, q, d)
    {
      MatchAtIff(h, q, d);
    }
  }

  /** Decimal digits of `n`, most significant first, without leading zeros. */
  function DecimalDigits(n: nat): (r: seq<byte>)
    ensures 1 <= |r| && AllDigits(r)
    ensures |r| > 1 ==> r[0] != 48
  {
    if n < 10 then [48 + n] else DecimalDigits(n / 10) + [48 + n % 10]
  }

  /** `bytes(str(n), 'ascii')`. */
  function Decimal(n: int): seq<byte>
  {
    if n < 0 then [MINUS] + DecimalDigits(-n) else DecimalDigits(n)
  }

  /** The value of a run of decimal digits. */
  function DigitsValue(d: seq<byte>): nat
    requires AllDigits(d)
  {
    if d == [] then 0 else DigitsValue(d[..|d| - 1]) * 10 + (d[|d| - 1] - 48)
  }

  lemma {:induction false} DecimalDigitsRoundTrip(n: nat)
    ensures DigitsValue(DecimalDigits(n)) == n
  {
    if n >= 10 {
      DecimalDigitsRoundTrip(n / 10);
      var r := DecimalDigits(n);
      assert r[..|r| - 1] == DecimalDigits(n / 10);
    }
  }

  /** The bytes the lazy lookup searches for: `bytes('gi|' + str(seqid) + '|', 'ascii')`. */
  function Needle(seqid: int): seq<byte>
  {
    GiToken(Decimal(seqid))
  }
}
