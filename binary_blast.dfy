/** A reader for a compiled protein BLAST database: the index (`.pin`),
    sequence (`.psq`) and header (`.phr`) files are given as byte strings,
    and `seek` followed by `read` is a slice of them. */
module BinaryBlast {
  import opened Bytes
  import opened Wrappers
  import opened ProteinCode
  import opened GiPattern
  import opened IndexLayout
  import opened HeaderLookup

  /** The exceptions the reader raises. */
  datatype Error =
    | ResidueOutOfRange(residue: BadResidue)  // IndexError from PROTEIN_CODE[a]
    | NoGiInHeader(record: nat)               // AttributeError: the header search found nothing
    | KeyNotFound(key: seq<byte>)             // KeyError from the header dictionary
    | PositionIsNone                          // TypeError: the scan found no header

  class Database {
    const index: seq<byte>
    const sequence: seq<byte>
    const headers: seq<byte>
    const loadHeaders: bool
    const title: string
    const sequenceNumber: nat
    const headerOffsets: seq<Entry>
    const sequenceOffsets: seq<Entry>
    /** identifier digits -> sequence range; filled only when `loadHeaders` */
    var headerDict: map<seq<byte>, Entry>

    /** The fields parsed from the index file agree with its layout. */
    ghost predicate IndexParsed()
    {
      && IndexWellFormed(index)
      && title == Title(index)
      && sequenceNumber == SequenceCount(index)
      && headerOffsets == HeaderTable(index)
      && sequenceOffsets == SequenceTable(index)
    }

    /** The state after opening: one sequence range per header range, and
        in eager mode the dictionary built from every header. */
    ghost predicate Valid()
      reads this
    {
      && |headerOffsets| == |sequenceOffsets| == sequenceNumber
      && (loadHeaders ==>
            && AllInBounds(headerOffsets, |headers|)
            && EagerIndex(AllHeaderDigits(headers, headerOffsets), sequenceOffsets, |headerOffsets|) == Success(headerDict))
    }

    /** Parses the index file: title, count, and the two offset tables.
        In eager mode the dictionary is still empty here; `Open` is the
        entry point that also reads the headers. */
    constructor (index: seq<byte>, sequence: seq<byte>, headers: seq<byte>, loadHeaders: bool)
      requires IndexWellFormed(index)
      ensures this.index == index && this.sequence == sequence && this.headers == headers
      ensures this.loadHeaders == loadHeaders
      ensures IndexParsed()
      ensures headerDict == map[]
      ensures !loadHeaders ==> Valid()
    {
      var t, n, hOff, sOff := ReadIndex(index);
      this.index := index;
      this.sequence := sequence;
      this.headers := headers;
      this.loadHeaders := loadHeaders;
      title := t;
      sequenceNumber := n;
      headerOffsets := hOff;
      sequenceOffsets := sOff;
      headerDict := map[];
    }

    /** Builds the dictionary from the leftmost `gi|digits|` match of every
        header, in table order; fails at the first header without one. */
    method ReadHeaders() returns (failure: Option<Error>)
      requires |headerOffsets| == |sequenceOffsets| && AllInBounds(headerOffsets, |headers|)
      modifies this
      ensures var spec := EagerIndex(AllHeaderDigits(headers, headerOffsets), sequenceOffsets, |headerOffsets|);
              && (spec.Success? ==> failure.None? && headerDict == spec.value)
              && (spec.Failure? ==> failure == Some(NoGiInHeader(spec.error))
                                    && Success(headerDict) == EagerIndex(AllHeaderDigits(headers, headerOffsets), sequenceOffsets, spec.error))
    {
      ghost var all := AllHeaderDigits(headers, headerOffsets);
      headerDict := map[];
      for j := 0 to |headerOffsets|
        invariant EagerIndex(all, sequenceOffsets, j) == Success(headerDict)
      {
        var b := Slice(headers, headerOffsets[j]);
        var found := Search(b);
        assert all[j] == HeaderDigits(headers, headerOffsets, j);
        if found.None? {
          EagerFailsAt(all, sequenceOffsets, |headerOffsets|, j);
          return Some(NoGiInHeader(j));
        }
        assert all[j] == Some(found.value.digits);
        headerDict := headerDict[found.value.digits := sequenceOffsets[j]];
      }
      return None;
    }

    /** Opening a database: parse the index, then in eager mode read every
        header into the dictionary. */
    static method Open(index: seq<byte>, sequence: seq<byte>, headers: seq<byte>, loadHeaders: bool)
        returns (r: Result<Database, Error>)
      requires IndexWellFormed(index)
      requires loadHeaders ==> AllInBounds(HeaderTable(index), |headers|)
      ensures r.Failure? <==> loadHeaders && EagerIndex(AllHeaderDigits(headers, HeaderTable(index)), SequenceTable(index), SequenceCount(index)).Failure?
      ensures loadHeaders && r.Failure? ==>
                r.error == NoGiInHeader(EagerIndex(AllHeaderDigits(headers, HeaderTable(index)), SequenceTable(index), SequenceCount(index)).error)
      ensures r.Success? ==> fresh(r.value) && r.value.IndexParsed() && r.value.Valid()
      ensures r.Success? ==> r.value.index == index && r.value.sequence == sequence
                             && r.value.headers == headers && r.value.loadHeaders == loadHeaders
    {
      var db := new Database(index, sequence, headers, loadHeaders);
      if loadHeaders {
        var failure := db.ReadHeaders();
        if failure.Some? {
          return Failure(failure.value);
        }
      }
      return Success(db);
    }

    /** `__get_position`: the dictionary entry in eager mode, otherwise the
        sequence range of the first header containing `gi|<seqid>|`. */
    method GetPosition(seqid: int) returns (r: Result<Option<Entry>, Error>)
      requires Valid()
      requires !loadHeaders ==> AllInBounds(headerOffsets, |headers|)
      ensures loadHeaders && Decimal(seqid) in headerDict ==> r == Success(Some(headerDict[Decimal(seqid)]))
      ensures loadHeaders && Decimal(seqid) !in headerDict ==> r == Failure(KeyNotFound(Decimal(seqid)))
      ensures !loadHeaders ==> r == Success(LazyPosition(headers, headerOffsets, sequenceOffsets, Needle(seqid)))
    {
      if loadHeaders {
        var key := Decimal(seqid);
        if key in headerDict {
          return Success(Some(headerDict[key]));
        }
        return Failure(KeyNotFound(key));
      }
      var needle := Needle(seqid);
      for j := 0 to |headerOffsets|
        invariant forall k :: 0 <= k < j ==> !HeaderHas(headers, headerOffsets, k, needle)
      {
        var b := Slice(headers, headerOffsets[j]);
        if Contains(b, needle) {
          assert HeaderHas(headers, headerOffsets, j, needle);
          assert FirstHeaderWith(headers, headerOffsets, needle, 0) == Some(j);
          return Success(Some(sequenceOffsets[j]));
        }
      }
      assert FirstHeaderWith(headers, headerOffsets, needle, 0).None?;
      return Success(None);
    }

    /** `__get_seq_by_position`: the residue letters of the bytes in `pos`. */
    function SequenceAt(pos: Entry): (r: Result<string, Error>)
      requires InBounds(pos, |sequence|)
      ensures r.Success? <==> forall k :: pos.start <= k < pos.start + pos.length ==> sequence[k] < |PROTEIN_CODE|
      ensures r.Success? ==> |r.value| == pos.length
      ensures r.Success? ==> forall k :: 0 <= k < pos.length ==> r.value[k] == PROTEIN_CODE[sequence[pos.start + k]]
      ensures r.Failure? ==> r.error.ResidueOutOfRange? && r.error.residue.at < pos.length
      ensures r.Failure? ==> sequence[pos.start + r.error.residue.at] == r.error.residue.value >= |PROTEIN_CODE|
    {
      var bytes := Slice(sequence, pos);
      assert |bytes| == pos.length;
      assert forall k :: 0 <= k < pos.length ==> bytes[k] == sequence[pos.start + k];
      match Translate(bytes)
      case Success(letters) => Success(letters)
      case Failure(bad) => Failure(ResidueOutOfRange(bad))
    }

    /** `get_seq`: the residues of the sequence the identifier leads to. */
    method GetSeq(seqid: int) returns (r: Result<string, Error>)
      requires Valid()
      requires !loadHeaders ==> AllInBounds(headerOffsets, |headers|)
      requires AllInBounds(sequenceOffsets, |sequence|)
      ensures loadHeaders && Decimal(seqid) in headerDict ==>
                InBounds(headerDict[Decimal(seqid)], |sequence|) && r == SequenceAt(headerDict[Decimal(seqid)])
      ensures loadHeaders && Decimal(seqid) !in headerDict ==> r == Failure(KeyNotFound(Decimal(seqid)))
      ensures !loadHeaders ==>
                match LazyPosition(headers, headerOffsets, sequenceOffsets, Needle(seqid))
                case Some(e) => InBounds(e, |sequence|) && r == SequenceAt(e)
                case None => r == Failure(PositionIsNone)
    {
      if loadHeaders && Decimal(seqid) in headerDict {
        EagerEntrySource(AllHeaderDigits(headers, headerOffsets), sequenceOffsets, |headerOffsets|, Decimal(seqid));
      }
      var pos := GetPosition(seqid);
      match pos
      case Failure(e) =>
        return Failure(e);
      case Success(None) =>
        return Failure(PositionIsNone);
      case Success(Some(e)) =>
        return SequenceAt(e);
    }
  }
}
