/** Writing records to an output stream, which may take octets piecemeal or fail (`src/io/write.rs`). */
module Writer {
  import opened Bytes
  import Raw
  import RawRoundTrip

  datatype Fault = Refused | WriteZero

  datatype Error = Invalid(error: Raw.Error) | SinkFailed(fault: Fault)

  /** An output stream. It takes some prefix of what it is given, or fails. */
  class Sink {
    var octets: bytes
    /** Whether it takes at least one octet of every write that has any. */
    const reliable: bool

    constructor (reliable: bool)
      ensures octets == [] && this.reliable == reliable
    {
      octets, this.reliable := [], reliable;
    }

    method Write(data: bytes) returns (r: Result<nat, Fault>)
      modifies this
      ensures r.Success? ==> r.value <= |data| && octets == old(octets) + data[..r.value]
      ensures r.Failure? ==> octets == old(octets)
      ensures reliable && data != [] ==> r.Success? && r.value > 0
    {
      if data == [] {
        return Success(0);
      }
      if !reliable {
        if * {
          return Failure(Refused);
        }
        if * {
          return Success(0);
        }
      }
      var n :| 0 < n <= |data|;
      octets := octets + data[..n];
      r := Success(n);
    }
  }

  /** A writer that counts, and on request digests, the octets its sink takes. */
  class Tap {
    const writer: Sink
    var length: nat
    /** The octets the digest has been fed, when one was asked for. */
    var hashed: Option<bytes>
    /** What the sink held before. */
    ghost const origin: bytes

    ghost predicate Valid()
      reads this, writer
    {
      && writer.octets == origin + Passed()
      && length == |Passed()|
      && (hashed.Some? ==> hashed.value == Passed())
    }

    /** The octets that have passed through. */
    ghost function Passed(): bytes
      reads this, writer
    {
      if |origin| <= |writer.octets| then writer.octets[|origin|..] else []
    }

    constructor (writer: Sink, digests: bool)
      ensures Valid() && this.writer == writer && Passed() == [] && hashed.Some? == digests
      ensures origin == writer.octets
    {
      this.writer, length := writer, 0;
      hashed := if digests then Some([]) else None;
      origin := writer.octets;
    }

    method Write(data: bytes) returns (r: Result<nat, Fault>)
      requires Valid()
      modifies this, writer
      ensures Valid() && hashed.Some? == old(hashed.Some?)
      ensures r.Success? ==> r.value <= |data| && Passed() == old(Passed()) + data[..r.value]
      ensures r.Failure? ==> Passed() == old(Passed())
      ensures writer.reliable && data != [] ==> r.Success? && r.value > 0
    {
      r := writer.Write(data);
      if r.Success? {
        length := length + r.value;
        if hashed.Some? {
          hashed := Some(hashed.value + data[..r.value]);
        }
      }
    }

    /** Write until everything is taken, or the sink fails or takes nothing. */
    method WriteAll(data: bytes) returns (r: Result<(), Fault>)
      requires Valid()
      modifies this, writer
      ensures Valid() && hashed.Some? == old(hashed.Some?)
      ensures Took(old(Passed()), data, r.Success?, Passed())
      ensures writer.reliable ==> r.Success?
    {
      hide Took, Cut, Tap.Valid, Tap.Passed;
      ghost var start := Passed();
      var done := 0;
      assert start + data[..0] == start;
      while done < |data|
        invariant done <= |data|
        invariant Valid() && hashed.Some? == old(hashed.Some?)
        invariant Passed() == start + data[..done]
      {
        TookSome(start, data, done);
        var taken := Write(data[done..]);
        if taken.Failure? {
          return Failure(taken.error);
        }
        if taken.value == 0 {
          TookMore(start, data, done, 0);
          return Failure(WriteZero);
        }
        TookMore(start, data, done, taken.value);
        done := done + taken.value;
      }
      TookSome(start, data, done);
      r := Success(());
    }
  }

  /** All of `data` passed, or only a part before the fault. */
  ghost predicate Took(before: bytes, data: bytes, whole: bool, after: bytes) {
    if whole then after == before + data else Cut(before, data, after)
  }

  /** A proper prefix of `data` was added. */
  ghost predicate Cut(before: bytes, data: bytes, after: bytes) {
    |before| <= |after| < |before| + |data| && after == before + data[..|after| - |before|]
  }

  /** What passed a new tap was added to what its sink held. */
  lemma TookAfter(origin: bytes, data: bytes, whole: bool, passed: bytes)
    requires Took([], data, whole, passed)
    ensures Took(origin, data, whole, origin + passed)
  {
  }

  lemma TookSome(start: bytes, data: bytes, done: nat)
    requires done <= |data|
    ensures Took(start, data, done == |data|, start + data[..done])
  {
    assert data[..|data|] == data;
  }

  lemma TookMore(start: bytes, data: bytes, done: nat, n: nat)
    requires done + n <= |data|
    ensures start + data[..done] + data[done..][..n] == start + data[..done + n]
  {
    assert data[..done] + data[done..][..n] == data[..done + n];
  }

  /** What was taken of one part, after the parts `done` and before the parts `rest`, is taken of the whole. */
  lemma TookPart(start: bytes, done: bytes, part: bytes, rest: bytes, whole: bool, after: bytes)
    requires Took(start + done, part, whole, after)
    ensures whole ==> after == start + (done + part)
    ensures !whole ==> Cut(start, done + part + rest, after)
  {
    ConcatAssociates(start, done, part);
    if !whole {
      var n := |after| - |start + done|;
      assert (done + part + rest)[..|done| + n] == done + part[..n];
    }
  }

  // ---------------------------------------------------------------------------------------------
  // Records
  // ---------------------------------------------------------------------------------------------

  /** Emit `part`, where `done` has been emitted since `start` and `rest` is still to come. */
  method Emit(tap: Tap, part: bytes, ghost start: bytes, ghost done: bytes, ghost rest: bytes)
    returns (r: Result<(), Fault>)
    requires tap.Valid() && tap.Passed() == start + done
    modifies tap, tap.writer
    ensures tap.Valid() && tap.hashed.Some? == old(tap.hashed.Some?)
    ensures r.Success? ==> tap.Passed() == start + (done + part)
    ensures r.Failure? ==> Cut(start, done + part + rest, tap.Passed())
    ensures tap.writer.reliable ==> r.Success?
  {
    hide Took, Cut, Tap.Valid, Tap.Passed;
    r := tap.WriteAll(part);
    TookPart(start, done, part, rest, r.Success?, tap.Passed());
  }

  /** Emit one field line part by part. */
  method WriteField(tap: Tap, field: Raw.Field, ghost start: bytes, ghost done: bytes, ghost rest: bytes)
    returns (r: Result<(), Fault>)
    requires tap.Valid() && tap.Passed() == start + done
    modifies tap, tap.writer
    ensures tap.Valid() && tap.hashed.Some? == old(tap.hashed.Some?)
    ensures r.Success? ==> tap.Passed() == start + (done + Raw.RenderField(field))
    ensures r.Failure? ==> Cut(start, done + Raw.RenderField(field) + rest, tap.Passed())
    ensures tap.writer.reliable ==> r.Success?
  {
    hide Cut, Tap.Valid, Tap.Passed;
    ghost var n, v := field.name, field.value;
    assert done + n + ([COLON] + v + CRLF + rest) == done + Raw.RenderField(field) + rest;
    var _ :- Emit(tap, field.name, start, done, [COLON] + v + CRLF + rest);
    assert done + n + [COLON] + (v + CRLF + rest) == done + Raw.RenderField(field) + rest;
    var _ :- Emit(tap, [COLON], start, done + n, v + CRLF + rest);
    assert done + n + [COLON] + v + (CRLF + rest) == done + Raw.RenderField(field) + rest;
    var _ :- Emit(tap, field.value, start, done + n + [COLON], CRLF + rest);
    assert done + n + [COLON] + v + CRLF == done + Raw.RenderField(field);
    var _ :- Emit(tap, CRLF, start, done + n + [COLON] + v, rest);
    r := Success(());
  }

  lemma LastField(fields: seq<Raw.Field>, i: nat)
    requires i < |fields|
    ensures Raw.RenderFields(fields[..i + 1]) == Raw.RenderFields(fields[..i]) + Raw.RenderField(fields[i])
  {
    hide Raw.RenderField;
    var some := fields[..i + 1];
    assert some[..|some| - 1] == fields[..i] && some[|some| - 1] == fields[i];
  }

  lemma RestOfFields(fields: seq<Raw.Field>, i: nat)
    requires i <= |fields|
    ensures Raw.RenderFields(fields) == Raw.RenderFields(fields[..i]) + Raw.RenderFields(fields[i..])
  {
    hide Raw.RenderFields;
    RawRoundTrip.RenderFieldsConcat(fields[..i], fields[i..]);
    assert fields[..i] + fields[i..] == fields;
  }

  /** The fields before `i`, field `i`, and those after it make up all the fields. */
  lemma FieldsAround(fields: seq<Raw.Field>, i: nat)
    requires i < |fields|
    ensures Raw.RenderFields(fields[..i + 1]) == Raw.RenderFields(fields[..i]) + Raw.RenderField(fields[i])
    ensures Raw.RenderFields(fields) == Raw.RenderFields(fields[..i + 1]) + Raw.RenderFields(fields[i + 1..])
  {
    hide Raw.RenderField, Raw.RenderFields;
    LastField(fields, i);
    RestOfFields(fields, i + 1);
  }

  /** Emit a header block part by part, counting what is written. */
  method WriteHeader(tap: Tap, h: Raw.Header, ghost start: bytes, ghost rest: bytes) returns (r: Result<nat, Fault>)
    requires tap.Valid() && tap.Passed() == start
    modifies tap, tap.writer
    ensures tap.Valid() && tap.hashed.Some? == old(tap.hashed.Some?)
    ensures r.Success? ==> tap.Passed() == start + Raw.RenderHeader(h) && r.value == |Raw.RenderHeader(h)|
    ensures r.Failure? ==> Cut(start, Raw.RenderHeader(h) + rest, tap.Passed())
    ensures tap.writer.reliable ==> r.Success?
  {
    hide Cut, Tap.Valid, Tap.Passed, Raw.RenderField, Raw.RenderFields;
    ghost var version, fields := Raw.VersionText(h.version), Raw.RenderFields(h.fields);
    ghost var whole := Raw.RenderHeader(h) + rest;
    assert start + [] == start;
    assert [] + Raw.WARC + (version + CRLF + fields + CRLF + rest) == whole;
    var _ :- Emit(tap, Raw.WARC, start, [], version + CRLF + fields + CRLF + rest);
    assert [] + Raw.WARC + version + (CRLF + fields + CRLF + rest) == whole;
    var _ :- Emit(tap, Raw.VersionText(h.version), start, [] + Raw.WARC, CRLF + fields + CRLF + rest);
    assert [] + Raw.WARC + version + CRLF + (fields + CRLF + rest) == whole;
    var _ :- Emit(tap, CRLF, start, [] + Raw.WARC + version, fields + CRLF + rest);
    ghost var line := Raw.VersionLine(h.version);
    assert [] + Raw.WARC + version + CRLF == line;

    var written := 10;
    NoFields(h, line);
    for i := 0 to |h.fields|
      invariant tap.Valid() && tap.hashed.Some? == old(tap.hashed.Some?)
      invariant tap.Passed() == start + (line + Raw.RenderFields(h.fields[..i]))
      invariant written == |line + Raw.RenderFields(h.fields[..i])|
    {
      ghost var done, after := line + Raw.RenderFields(h.fields[..i]), Raw.RenderFields(h.fields[i + 1..]);
      HeaderAround(h, i, rest);
      var _ :- WriteField(tap, h.fields[i], start, done, after + CRLF + rest);
      written := written + |h.fields[i].name| + 1 + |h.fields[i].value| + 2;
    }
    assert h.fields[..|h.fields|] == h.fields;
    var _ :- Emit(tap, CRLF, start, line + fields, rest);
    r := Success(written + 2);
  }

  lemma NoFields(h: Raw.Header, line: bytes)
    ensures line + Raw.RenderFields(h.fields[..0]) == line
  {
    assert h.fields[..0] == [];
  }

  lemma HeaderAround(h: Raw.Header, i: nat, rest: bytes)
    requires i < |h.fields|
    ensures var line := Raw.VersionLine(h.version);
            var done, field := line + Raw.RenderFields(h.fields[..i]), h.fields[i];
            && done + Raw.RenderField(field) == line + Raw.RenderFields(h.fields[..i + 1])
            && |Raw.RenderField(field)| == |field.name| + 1 + |field.value| + 2
            && done + Raw.RenderField(field) + (Raw.RenderFields(h.fields[i + 1..]) + CRLF + rest) == Raw.RenderHeader(h) + rest
  {
    hide Raw.RenderFields, Raw.VersionLine;
    var line, a, f, b := Raw.VersionLine(h.version), Raw.RenderFields(h.fields[..i]), Raw.RenderField(h.fields[i]),
      Raw.RenderFields(h.fields[i + 1..]);
    FieldsAround(h.fields, i);
    assert line + a + f == line + (a + f);
    assert line + a + f + (b + CRLF + rest) == line + (a + f + b) + CRLF + rest;
  }

  /** Emit a record: its header block, its body and the end of the record. */
  method WriteRecord(tap: Tap, record: Raw.Record) returns (r: Result<nat, Fault>)
    requires tap.Valid()
    modifies tap, tap.writer
    ensures tap.Valid() && tap.hashed.Some? == old(tap.hashed.Some?)
    ensures Took(old(tap.Passed()), Raw.RenderRecord(record), r.Success?, tap.Passed())
    ensures r.Success? ==> r.value == |Raw.RenderRecord(record)|
    ensures tap.writer.reliable ==> r.Success?
  {
    hide Cut, Tap.Valid, Tap.Passed, Raw.RenderHeader;
    ghost var start, header, whole := tap.Passed(), Raw.RenderHeader(record.header), Raw.RenderRecord(record);
    assert header + (record.body + Raw.TERMINATOR) == whole;
    var headerLength :- WriteHeader(tap, record.header, start, record.body + Raw.TERMINATOR);
    var _ :- Emit(tap, record.body, start, header, Raw.TERMINATOR);
    assert whole + [] == whole;
    var _ :- Emit(tap, Raw.TERMINATOR, start, header + record.body, []);
    r := Success(headerLength + |record.body| + 4);
  }

  // ---------------------------------------------------------------------------------------------
  // The writer
  // ---------------------------------------------------------------------------------------------

  /** How each record is stored: as it is, or as what the encoder makes of it at the chosen level. */
  datatype Compression = Uncompressed | Gzip(member: bytes -> bytes)

  /** Where a record was stored, and the octets its digest covers when one was asked for. */
  datatype Written = Written(offset: nat, length: nat, digested: Option<bytes>)

  function Stored(compression: Compression, record: Raw.Record): bytes {
    match compression
    case Uncompressed => Raw.RenderRecord(record)
    case Gzip(member) => member(Raw.RenderRecord(record))
  }

  /** What the sink holds, and where the writer takes itself to be. */
  datatype Output = Output(octets: bytes, position: nat)

  /** What one call of `Write` may do. */
  ghost predicate Wrote(
    compression: Compression, digests: bool, before: Output, record: Raw.Record, r: Result<Written, Error>, after: Output)
  {
    var stored := Stored(compression, record);
    match r
    case Success(written) =>
      && Raw.ValidateRecord(record).Success?
      && after == Output(before.octets + stored, before.position + |stored|)
      && written == Written(before.position, |stored|, if digests then Some(stored) else None)
    case Failure(Invalid(error)) => Raw.ValidateRecord(record) == Failure(error) && after == before
    case Failure(SinkFailed(_)) =>
      && Raw.ValidateRecord(record).Success?
      && before.octets <= after.octets
      && after.position == before.position + (|after.octets| - |before.octets|)
      && (compression.Uncompressed? ==> Cut(before.octets, stored, after.octets))
  }

  class WarcWriter {
    const writer: Sink
    /** How much the sink holds, by the writer's count. */
    var position: nat
    const digests: bool
    const compression: Compression

    /** Write after what the sink holds, which is octets up to `position`. */
    constructor (writer: Sink, position: nat, digests: bool, compression: Compression)
      ensures this.writer == writer && this.position == position
      ensures this.digests == digests && this.compression == compression
    {
      this.writer, this.position := writer, position;
      this.digests, this.compression := digests, compression;
    }

    ghost function State(): Output
      reads this, writer
    {
      Output(writer.octets, position)
    }

    /**
     * Write a record. An invalid one leaves the output unchanged; a sink that fails partway may
     * leave a part of the record, which the position takes into account.
     */
    method Write(record: Raw.Record) returns (r: Result<Written, Error>)
      modifies this, writer
      ensures Wrote(compression, digests, old(State()), record, r, State())
      ensures writer.reliable ==> (r.Success? <==> Raw.ValidateRecord(record).Success?)
    {
      hide Raw.ValidateRecord, Raw.RenderRecord, Cut;
      var valid := Raw.ValidateRecord(record);
      if valid.Failure? {
        return Failure(Invalid(valid.error));
      }
      var tap := new Tap(writer, digests);
      var result: Result<(), Fault>;
      match compression {
        case Uncompressed =>
          var written := WriteRecord(tap, record);
          result := if written.Failure? then Failure(written.error) else Success(());
          TookAfter(tap.origin, Raw.RenderRecord(record), result.Success?, tap.Passed());
        case Gzip(member) =>
          result := tap.WriteAll(member(Raw.RenderRecord(record)));
          TookAfter(tap.origin, member(Raw.RenderRecord(record)), result.Success?, tap.Passed());
          if result.Failure? {
            // An encoder that is dropped tries once more to push what it holds.
            var more: bytes := *;
            var _ := tap.WriteAll(more);
          }
      }
      var written := Frame(tap.length, tap.hashed);
      r := if result.Failure? then Failure(SinkFailed(result.error)) else Success(written);
    }

    /** Advance past what was stored, whether or not all of it was, and describe it. */
    method Frame(length: nat, digested: Option<bytes>) returns (written: Written)
      modifies this`position
      ensures position == old(position) + length
      ensures written == Written(old(position), length, digested)
    {
      written := Written(position, length, digested);
      position := position + length;
    }
  }
}
