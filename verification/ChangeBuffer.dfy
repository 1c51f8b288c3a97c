/**
  The directory watcher's buffer of linked extended change records: the parser, the format it reads, and the
  proof that it inverts the format.
 */
module ChangeBuffer {
  import opened Wrappers
  import opened Octets
  import opened Utf16
  import opened Watcher
  import Contracts

  datatype ParseError =
    | ByteCountExceedsBuffer
    | TruncatedHeader
    | OddNameLength
    | TruncatedName
    | InvalidName
    | InvalidNextEntry

  const HEADER := 84

  const U32 := 0x1_0000_0000
  const U64 := 0x1_0000_0000_0000_0000

  // ---------------------------------------------------------------- little-endian fields

  function Bytes4(n: nat): (b: seq<byte>)
    ensures |b| == 4
  {
    [n % 0x100, n / 0x100 % 0x100, n / 0x100 / 0x100 % 0x100, n / 0x100 / 0x100 / 0x100 % 0x100]
  }

  function Number4(b: seq<byte>): (n: nat)
    requires |b| == 4
    ensures n < U32
  {
    (b[0] as int) + 0x100 * (b[1] as int) + 0x1_0000 * (b[2] as int) + 0x100_0000 * (b[3] as int)
  }

  function Bytes8(n: nat): (b: seq<byte>)
    ensures |b| == 8
  {
    Bytes4(n % U32) + Bytes4(n / U32)
  }

  function Number8(b: seq<byte>): (n: nat)
    requires |b| == 8
  {
    Number4(b[..4]) + U32 * Number4(b[4..])
  }

  /** `to_be_bytes`. */
  function BigEndian8(n: nat): seq<byte> {
    var b := Bytes8(n);
    [b[7], b[6], b[5], b[4], b[3], b[2], b[1], b[0]]
  }

  lemma Field4(n: nat)
    requires n < U32
    ensures Number4(Bytes4(n)) == n
  {
  }

  lemma LowByte(low: byte, high: nat)
    ensures (low + 0x100 * high) % 0x100 == low && (low + 0x100 * high) / 0x100 == high
  {
  }

  lemma Field4Back(b: seq<byte>)
    requires |b| == 4
    ensures Bytes4(Number4(b)) == b
  {
    LowByte(b[2], b[3]);
    LowByte(b[1], (b[2] as int) + 0x100 * (b[3] as int));
    LowByte(b[0], (b[1] as int) + 0x100 * ((b[2] as int) + 0x100 * (b[3] as int)));
  }

  lemma Field8Back(b: seq<byte>)
    requires |b| == 8
    ensures Number8(b) < U64 && Bytes8(Number8(b)) == b
  {
    hide Bytes4, Number4;
    var low, high := Number4(b[..4]), Number4(b[4..]);
    assert (low + U32 * high) % U32 == low && (low + U32 * high) / U32 == high;
    Field4Back(b[..4]);
    Field4Back(b[4..]);
    assert b == b[..4] + b[4..];
  }

  lemma Field8(n: nat)
    requires n < U64
    ensures Number8(Bytes8(n)) == n
  {
    hide Bytes4, Number4;
    Field4(n % U32);
    Field4(n / U32);
    assert Bytes8(n)[..4] == Bytes4(n % U32) && Bytes8(n)[4..] == Bytes4(n / U32);
  }

  /** Distinct file ids give distinct identities. */
  lemma IdentitiesApart(m: nat, n: nat)
    requires m < U64 && n < U64 && BigEndian8(m) == BigEndian8(n)
    ensures m == n
  {
    hide Bytes8, Number8;
    var a, b := Bytes8(m), Bytes8(n);
    forall i | 0 <= i < 8 ensures a[i] == b[i] {
      assert BigEndian8(m)[7 - i] == a[i] && BigEndian8(n)[7 - i] == b[i];
    }
    assert a == b;
    Field8(m);
    Field8(n);
  }

  // ---------------------------------------------------------------- one record

  datatype Header = Header(next: nat, action: nat, fileId: nat, nameLength: nat)

  /** The fields the parser reads; the times, sizes, attributes and the parent's id in between are not used. */
  function ReadHeader(b: seq<byte>): Header
    requires |b| >= HEADER
  {
    Header(Number4(b[0..4]), Number4(b[4..8]), Number8(b[64..72]), Number4(b[80..84]))
  }

  function ActionOf(code: nat): DirectoryAction {
    match code
    case 1 => Added
    case 2 => Removed
    case 3 => Modified
    case 4 => RenamedFrom
    case 5 => RenamedTo
    case _ => Unknown(code)
  }

  /** The identity is the file id's eight bytes, most significant first, on the watched volume. */
  function ChangeOf(action: nat, name: string, fileId: nat, volume: string): DirectoryChange {
    DirectoryChange(ActionOf(action), name,
                    Some(Contracts.FileIdentity("windows-file-id-v1", volume, BigEndian8(fileId))))
  }

  /** The record at the start of `b`, where `b` reaches to the end of the returned bytes. */
  function ReadRecord(b: seq<byte>, volume: string): (r: Result<DirectoryChange, ParseError>)
    ensures r.Ok? ==> |b| >= HEADER
  {
    if |b| < HEADER then Err(TruncatedHeader)
    else
      var h := ReadHeader(b);
      if h.nameLength % 2 != 0 then Err(OddNameLength)
      else if HEADER + h.nameLength > |b| then Err(TruncatedName)
      else
        match Decode(FromBytes(b[HEADER..HEADER + h.nameLength]))
        case None => Err(InvalidName)
        case Some(name) => Ok(ChangeOf(h.action, name, h.fileId, volume))
  }

  /** The records linked from the start of `b`. */
  function ReadChain(b: seq<byte>, volume: string): Result<seq<DirectoryChange>, ParseError>
    decreases |b|
  {
    match ReadRecord(b, volume)
    case Err(e) => Err(e)
    case Ok(change) =>
      var next := ReadHeader(b).next;
      if next == 0 then Ok([change])
      else if next < HEADER || next > |b| then Err(InvalidNextEntry)
      else
        match ReadChain(b[next..], volume)
        case Err(e) => Err(e)
        case Ok(changes) => Ok([change] + changes)
  }

  function ReadBuffer(buffer: seq<byte>, bytesReturned: nat, volume: string): Result<DirectoryBatch, ParseError> {
    if bytesReturned == 0 then Ok(DirectoryBatch([], true))
    else if bytesReturned > |buffer| then Err(ByteCountExceedsBuffer)
    else
      match ReadChain(buffer[..bytesReturned], volume)
      case Err(e) => Err(e)
      case Ok(changes) => Ok(DirectoryBatch(changes, false))
  }

  function Extended(changes: seq<DirectoryChange>, r: Result<seq<DirectoryChange>, ParseError>)
    : Result<seq<DirectoryChange>, ParseError>
  {
    if r.Err? then r else Ok(changes + r.value)
  }

  lemma ExtendedTwice(first: seq<DirectoryChange>, second: seq<DirectoryChange>,
                      r: Result<seq<DirectoryChange>, ParseError>)
    ensures Extended([], r) == r
    ensures Extended(first + second, r) == Extended(first, Extended(second, r))
  {
    if r.Ok? { assert first + second + r.value == first + (second + r.value) && [] + r.value == r.value; }
  }

  lemma ChainStep(b: seq<byte>, volume: string)
    requires ReadRecord(b, volume).Ok?
    ensures var next := ReadHeader(b).next;
      ReadChain(b, volume) == (if next == 0 then Ok([ReadRecord(b, volume).value])
                       else if next < HEADER || next > |b| then Err(InvalidNextEntry)
                       else Extended([ReadRecord(b, volume).value], ReadChain(b[next..], volume)))
  {
    hide ReadRecord, ReadHeader;
  }

  /** `parse_extended_change_buffer`: the offset only grows and stays within the returned bytes. */
  method ParseExtendedChangeBuffer(buffer: array<byte>, bytesReturned: nat, volume: string)
    returns (r: Result<DirectoryBatch, ParseError>)
    ensures r == ReadBuffer(buffer[..], bytesReturned, volume)
  {
    hide ReadRecord, ReadHeader, ReadChain, ChangeOf, Decode, FromBytes;
    if bytesReturned == 0 { return Ok(DirectoryBatch([], true)); }
    if bytesReturned > buffer.Length { return Err(ByteCountExceedsBuffer); }
    var changes: seq<DirectoryChange> := [];
    var offset := 0;
    ghost var all := buffer[..][..bytesReturned];
    ghost var whole := ReadChain(all, volume);
    assert all[0..] == all;
    ExtendedTwice([], [], whole);
    while true
      invariant 0 <= offset <= bytesReturned
      invariant whole == Extended(changes, ReadChain(all[offset..], volume))
      decreases bytesReturned - offset
    {
      ghost var rest := all[offset..];
      ghost var found := changes;
      UnfoldRecord(rest, volume);
      if offset + HEADER > bytesReturned { return Err(TruncatedHeader); }
      var header := ReadHeader(buffer[offset..bytesReturned]);
      assert buffer[offset..bytesReturned] == rest;
      if header.nameLength % 2 != 0 { return Err(OddNameLength); }
      var nameStart := offset + HEADER;
      var nameEnd := nameStart + header.nameLength;
      if nameEnd > bytesReturned { return Err(TruncatedName); }
      assert buffer[nameStart..nameEnd] == rest[HEADER..HEADER + header.nameLength];
      var name := Decode(FromBytes(buffer[nameStart..nameEnd]));
      if name.None? { return Err(InvalidName); }
      changes := changes + [ChangeOf(header.action, name.value, header.fileId, volume)];
      ChainStep(rest, volume);
      var next := header.next;
      if next == 0 { break; }
      if next < HEADER || offset + next > bytesReturned { return Err(InvalidNextEntry); }
      assert rest[next..] == all[offset + next..];
      ExtendedTwice(found, [ReadRecord(rest, volume).value], ReadChain(rest[next..], volume));
      offset := offset + next;
    }
    return Ok(DirectoryBatch(changes, false));
  }

  lemma UnfoldRecord(b: seq<byte>, volume: string)
    ensures ReadRecord(b, volume).Err? ==> ReadChain(b, volume) == Err(ReadRecord(b, volume).error)
    ensures |b| < HEADER ==> ReadRecord(b, volume) == Err(TruncatedHeader)
    ensures |b| >= HEADER ==>
              var h := ReadHeader(b);
              if h.nameLength % 2 != 0 then ReadRecord(b, volume) == Err(OddNameLength)
              else if HEADER + h.nameLength > |b| then ReadRecord(b, volume) == Err(TruncatedName)
              else
                var name := Decode(FromBytes(b[HEADER..HEADER + h.nameLength]));
                ReadRecord(b, volume) == (if name.None? then Err(InvalidName)
                                  else Ok(ChangeOf(h.action, name.value, h.fileId, volume)))
  {
    hide ReadHeader, Decode, FromBytes, ChangeOf;
  }

  /** Every parsed change took a header's length of the returned bytes. */
  lemma {:induction false} ChangesFitTheBytes(b: seq<byte>, volume: string)
    requires ReadChain(b, volume).Ok?
    ensures 1 <= |ReadChain(b, volume).value| && HEADER * |ReadChain(b, volume).value| <= |b|
    decreases |b|
  {
    hide ReadRecord, ReadHeader;
    ChainStep(b, volume);
    var next := ReadHeader(b).next;
    if HEADER <= next <= |b| { ChangesFitTheBytes(b[next..], volume); }
  }

  // ---------------------------------------------------------------- the format

  /** A record with everything in it: `times` are the 56 bytes before the file id, `parent` the 8 after it. */
  datatype Record = Record(action: nat, fileId: nat, name: string, times: seq<byte>, parent: seq<byte>,
                           padding: seq<byte>)
  {
    function NameBytes(): seq<byte> { ToBytes(Encode(name)) }

    function Size(): nat { HEADER + |NameBytes()| + |padding| }

    predicate Legal() {
      && action < U32 && fileId < U64 && |times| == 56 && |parent| == 8 && |NameBytes()| < U32
    }

    function Meaning(volume: string): DirectoryChange {
      ChangeOf(action, name, fileId, volume)
    }

    /** The record's bytes, linked to the record `next` bytes further on. */
    function Bytes(next: nat): seq<byte>
      requires Legal()
    {
      Bytes4(next) + Bytes4(action) + times + Bytes8(fileId) + parent + Bytes4(|NameBytes()|) + NameBytes() + padding
    }
  }

  /** Records that fit the format; a record that is followed by another must fit its link. */
  ghost predicate Legal(records: seq<Record>) {
    && |records| > 0
    && (forall i :: 0 <= i < |records| ==> records[i].Legal())
    && (forall i :: 0 <= i < |records| - 1 ==> records[i].Size() < U32)
  }

  ghost function Layout(records: seq<Record>): seq<byte>
    requires Legal(records)
  {
    if |records| == 1 then records[0].Bytes(0) else records[0].Bytes(records[0].Size()) + Layout(records[1..])
  }

  function Meanings(records: seq<Record>, volume: string): seq<DirectoryChange> {
    if |records| == 0 then [] else [records[0].Meaning(volume)] + Meanings(records[1..], volume)
  }

  lemma RecordFields(r: Record, next: nat, tail: seq<byte>)
    requires r.Legal() && next < U32
    ensures var b := r.Bytes(next) + tail;
      && |r.Bytes(next)| == r.Size()
      && ReadHeader(b) == Header(next, r.action, r.fileId, |r.NameBytes()|)
      && b[HEADER..HEADER + |r.NameBytes()|] == r.NameBytes()
      && b[r.Size()..] == tail
  {
    hide Bytes4, Bytes8, Number4, Number8, Record.NameBytes;
    var name := r.NameBytes();
    var b := r.Bytes(next) + tail;
    assert b[0..4] == Bytes4(next) && b[4..8] == Bytes4(r.action);
    assert b[64..72] == Bytes8(r.fileId) && b[80..84] == Bytes4(|name|);
    Field4(next);
    Field4(r.action);
    Field4(|name|);
    Field8(r.fileId);
  }

  lemma ReadInvertsBytes(r: Record, next: nat, tail: seq<byte>, volume: string)
    requires r.Legal() && next < U32
    ensures ReadRecord(r.Bytes(next) + tail, volume) == Ok(r.Meaning(volume))
  {
    hide Bytes4, Number4, Bytes8, Number8, ReadHeader, ReadRecord, Record.Bytes, ChangeOf, Decode, Encode, FromBytes;
    var b := r.Bytes(next) + tail;
    RecordFields(r, next, tail);
    UnfoldRecord(b, volume);
    BytesRoundTrip(Encode(r.name));
    DecodeInvertsEncode(r.name);
    assert FromBytes(b[HEADER..HEADER + |r.NameBytes()|]) == Encode(r.name);
  }

  lemma LegalRest(records: seq<Record>)
    requires Legal(records) && |records| > 1
    ensures Legal(records[1..])
  {
    hide Record.Legal, Record.Size;
  }

  /** The parser inverts the format, for any padding, unused fields and bytes after the last record. */
  lemma {:induction false} ChainInvertsLayout(records: seq<Record>, tail: seq<byte>, volume: string)
    requires Legal(records)
    ensures ReadChain(Layout(records) + tail, volume) == Ok(Meanings(records, volume))
    decreases |records|
  {
    hide ReadRecord, ReadHeader, ReadChain, Record.Bytes, Record.Meaning, Record.NameBytes;
    var r, next := records[0], if |records| == 1 then 0 else records[0].Size();
    var rest := if |records| == 1 then tail else Layout(records[1..]) + tail;
    var b := r.Bytes(next) + rest;
    assert Layout(records) + tail == b;
    RecordFields(r, next, rest);
    ReadInvertsBytes(r, next, rest, volume);
    ChainStep(b, volume);
    if |records| > 1 {
      LegalRest(records);
      ChainInvertsLayout(records[1..], tail, volume);
      assert b[next..] == rest;
    } else {
      assert Meanings(records, volume) == [r.Meaning(volume)];
    }
  }

  /** The number whose bytes these are, most significant first. */
  function BigEndian(b: seq<byte>): nat {
    if |b| == 0 then 0 else 0x100 * BigEndian(b[..|b| - 1]) + b[|b| - 1] as nat
  }

  lemma {:induction false} MeaningsAt(records: seq<Record>, volume: string, k: nat)
    requires k < |records|
    ensures |Meanings(records, volume)| == |records| && Meanings(records, volume)[k] == records[k].Meaning(volume)
  {
    hide Record.Meaning;
    if |records| > 1 { MeaningsAt(records[1..], volume, if k > 0 then k - 1 else 0); }
  }

  /** What each parsed change says of its record: the action by its code, the name, and the file id, big-endian, on the
      watched volume. */
  lemma ParsedFields(records: seq<Record>, tail: seq<byte>, volume: string, k: nat)
    requires Legal(records) && k < |records|
    ensures var parsed := ReadChain(Layout(records) + tail, volume);
      && parsed.Ok? && |parsed.value| == |records|
      && var change, record := parsed.value[k], records[k];
      && (change.action.Added? <==> record.action == 1) && (change.action.Removed? <==> record.action == 2)
      && (change.action.Modified? <==> record.action == 3) && (change.action.RenamedFrom? <==> record.action == 4)
      && (change.action.RenamedTo? <==> record.action == 5)
      && (change.action.Unknown? ==> change.action.code == record.action)
      && change.relativePath == record.name && change.identity.Some?
      && change.identity.value.provider == "windows-file-id-v1" && change.identity.value.nameSpace == volume
      && |change.identity.value.opaqueId| == 8 && BigEndian(change.identity.value.opaqueId) == record.fileId
  {
    hide Layout, ReadChain, Record.NameBytes, BigEndian8, BigEndian;
    ChainInvertsLayout(records, tail, volume);
    MeaningsAt(records, volume, k);
    BigEndianOfId(records[k].fileId);
  }

  lemma BigEndianOfId(n: nat)
    requires n < U64
    ensures |BigEndian8(n)| == 8 && BigEndian(BigEndian8(n)) == n
  {
    hide Bytes8, Number8, BigEndian;
    Field8(n);
    EightByteNumber(Bytes8(n));
  }

  lemma EightByteNumber(b: seq<byte>)
    requires |b| == 8
    ensures Number8(b) == BigEndian([b[7], b[6], b[5], b[4], b[3], b[2], b[1], b[0]])
  {
    EightBytes(b[7], b[6], b[5], b[4], b[3], b[2], b[1], b[0]);
  }

  lemma EightBytes(a: byte, b: byte, c: byte, d: byte, e: byte, f: byte, g: byte, h: byte)
    ensures BigEndian([a, b, c, d, e, f, g, h]) ==
            0x1_0000_0000 * (0x100_0000 * (a as int) + 0x1_0000 * (b as int) + 0x100 * (c as int) + (d as int))
            + 0x100_0000 * (e as int) + 0x1_0000 * (f as int) + 0x100 * (g as int) + (h as int)
  {
    OneMoreByte([], a);
    OneMoreByte([a], b);
    OneMoreByte([a, b], c);
    OneMoreByte([a, b, c], d);
    OneMoreByte([a, b, c, d], e);
    OneMoreByte([a, b, c, d, e], f);
    OneMoreByte([a, b, c, d, e, f], g);
    OneMoreByte([a, b, c, d, e, f, g], h);
    hide BigEndian;
    assert [] + [a] == [a] && [a] + [b] == [a, b] && [a, b] + [c] == [a, b, c] && [a, b, c] + [d] == [a, b, c, d];
    assert [a, b, c, d] + [e] == [a, b, c, d, e] && [a, b, c, d, e] + [f] == [a, b, c, d, e, f];
    assert [a, b, c, d, e, f] + [g] == [a, b, c, d, e, f, g];
    assert [a, b, c, d, e, f, g] + [h] == [a, b, c, d, e, f, g, h];
    assert BigEndian([]) == 0 by { NoBytes(); }
  }

  lemma NoBytes()
    ensures BigEndian([]) == 0
  {
  }

  lemma OneMoreByte(b: seq<byte>, last: byte)
    ensures BigEndian(b + [last]) == 0x100 * BigEndian(b) + (last as int)
  {
    assert (b + [last])[..|b|] == b;
  }

  /** Any legal list of records, laid out anywhere at the start of a large enough buffer, is read back. */
  lemma BufferInvertsLayout(records: seq<Record>, tail: seq<byte>, bytesReturned: nat, volume: string)
    requires Legal(records) && |Layout(records)| <= bytesReturned <= |Layout(records) + tail|
    ensures ReadBuffer(Layout(records) + tail, bytesReturned, volume) ==
              Ok(DirectoryBatch(Meanings(records, volume), false))
  {
    hide Record.Bytes, ReadChain, Legal;
    var b := Layout(records) + tail;
    assert b[..bytesReturned] == Layout(records) + tail[..bytesReturned - |Layout(records)|];
    ChainInvertsLayout(records, tail[..bytesReturned - |Layout(records)|], volume);
    LayoutNotEmpty(records);
  }

  lemma LayoutNotEmpty(records: seq<Record>)
    requires Legal(records)
    ensures |Layout(records)| >= HEADER
  {
    hide Bytes4, Bytes8, Number4, Number8, Record.NameBytes;
    RecordFields(records[0], 0, []);
  }

  // ---------------------------------------------------------------- only the format is accepted

  /** No record's name runs into the record it links to, which the parser does not check. */
  ghost predicate Disjoint(b: seq<byte>, volume: string)
    decreases |b|
  {
    ReadRecord(b, volume).Ok? ==>
      var h := ReadHeader(b);
      h.next == 0 || !(HEADER <= h.next <= |b|) || (HEADER + h.nameLength <= h.next && Disjoint(b[h.next..], volume))
  }

  ghost function RecordAt(b: seq<byte>, end: nat, volume: string): Record
    requires ReadRecord(b, volume).Ok? && HEADER + ReadHeader(b).nameLength <= end <= |b|
  {
    var h := ReadHeader(b);
    Record(h.action, h.fileId, ReadRecord(b, volume).value.relativePath, b[8..64], b[72..80],
           b[HEADER + h.nameLength..end])
  }

  lemma NameOfRecordAt(b: seq<byte>, end: nat, volume: string)
    requires ReadRecord(b, volume).Ok? && HEADER + ReadHeader(b).nameLength <= end <= |b|
    ensures RecordAt(b, end, volume).NameBytes() == b[HEADER..HEADER + ReadHeader(b).nameLength]
  {
    hide ReadHeader, Decode, Encode, FromBytes, ToBytes;
    UnfoldRecord(b, volume);
    var name := b[HEADER..HEADER + ReadHeader(b).nameLength];
    UnitsRoundTrip(name);
    EncodeInvertsDecode(FromBytes(name));
  }

  lemma BytesOfRecordAt(b: seq<byte>, end: nat, volume: string)
    requires ReadRecord(b, volume).Ok? && HEADER + ReadHeader(b).nameLength <= end <= |b|
    ensures var r := RecordAt(b, end, volume);
      r.Legal() && r.Size() == end && r.Bytes(ReadHeader(b).next) == b[..end]
  {
    NameOfRecordAt(b, end, volume);
    hide Bytes4, Bytes8, Number4, Number8, Record.NameBytes, ReadRecord;
    Field4Back(b[0..4]);
    Field4Back(b[4..8]);
    Field8Back(b[64..72]);
    Field4Back(b[80..84]);
    var n := HEADER + ReadHeader(b).nameLength;
    Joined(b, 4, 8);
    Joined(b, 8, 64);
    Joined(b, 64, 72);
    Joined(b, 72, 80);
    Joined(b, 80, 84);
    Joined(b, 84, n);
    Joined(b, n, end);
    assert b[0..4] == b[..4];
  }

  lemma Joined(b: seq<byte>, i: nat, j: nat)
    requires i <= j <= |b|
    ensures b[..i] + b[i..j] == b[..j]
  {
  }

  /** What the parser accepts is a layout of records, unless a name runs into the next record. */
  lemma {:induction false} AcceptedIsLayout(b: seq<byte>, volume: string) returns (records: seq<Record>)
    requires ReadChain(b, volume).Ok? && Disjoint(b, volume)
    ensures Legal(records) && Layout(records) == b
    decreases |b|
  {
    hide ReadRecord, ReadHeader, Record.NameBytes, Record.Bytes;
    ChainStep(b, volume);
    var next := ReadHeader(b).next;
    HeaderBounds(b, volume);
    if next == 0 {
      BytesOfRecordAt(b, |b|, volume);
      records := [RecordAt(b, |b|, volume)];
      assert b[..|b|] == b;
    } else {
      BytesOfRecordAt(b, next, volume);
      var rest := AcceptedIsLayout(b[next..], volume);
      records := [RecordAt(b, next, volume)] + rest;
      assert records[1..] == rest;
      assert b == b[..next] + b[next..];
    }
  }

  lemma HeaderBounds(b: seq<byte>, volume: string)
    requires ReadRecord(b, volume).Ok?
    ensures |b| >= HEADER && HEADER + ReadHeader(b).nameLength <= |b| && ReadHeader(b).next < U32
  {
    hide Decode, FromBytes;
  }

  lemma {:induction false} LayoutIsDisjoint(records: seq<Record>, volume: string)
    requires Legal(records)
    ensures Disjoint(Layout(records), volume)
    decreases |records|
  {
    hide ReadRecord, ReadHeader, Record.Bytes, Record.NameBytes;
    var r, next := records[0], if |records| == 1 then 0 else records[0].Size();
    var rest := if |records| == 1 then [] else Layout(records[1..]);
    RecordFields(r, next, rest);
    assert Layout(records) == r.Bytes(next) + rest;
    if |records| > 1 {
      LegalRest(records);
      LayoutIsDisjoint(records[1..], volume);
      assert Layout(records)[next..] == rest;
    }
  }

  /** The exact inverse image: the accepted inputs without running-over names are the layouts, and no others. */
  lemma AcceptedExactly(b: seq<byte>, volume: string)
    ensures (ReadChain(b, volume).Ok? && Disjoint(b, volume)) <==>
              exists records :: Legal(records) && Layout(records) == b
  {
    hide ReadChain, Disjoint, Legal;
    if ReadChain(b, volume).Ok? && Disjoint(b, volume) {
      var records := AcceptedIsLayout(b, volume);
    }
    if records :| Legal(records) && Layout(records) == b {
      LayoutIsDisjoint(records, volume);
      ChainInvertsLayout(records, [], volume);
      assert b + [] == b;
    }
  }

  /** 84 bytes that link to the 84 bytes after them and claim a name of one character, which lies over there. */
  function OverlappingBytes(): seq<byte> {
    Bytes4(HEADER) + seq(76, _ => 0) + Bytes4(2) + seq(84, _ => 0)
  }

  /** The parser accepts a name that runs into the next record. */
  lemma OverlapIsAccepted(volume: string)
    ensures ReadChain(OverlappingBytes(), volume).Ok? && !Disjoint(OverlappingBytes(), volume)
  {
    hide Decode, FromBytes, Bytes4, Number4, Disjoint, ReadChain;
    var b := OverlappingBytes();
    var zeros: seq<byte> := [0, 0];
    assert b[0..4] == Bytes4(HEADER) && b[80..84] == Bytes4(2) && b[HEADER..HEADER + 2] == zeros;
    Field4(HEADER);
    Field4(2);
    assert Decode(FromBytes(zeros)).Some? by { ZeroDecodes(); }
    UnfoldRecord(b, volume);
    ChainStep(b, volume);
    var rest := b[HEADER..];
    assert rest == seq(84, _ => 0);
    ZeroRecord(rest, volume);
    assert !Disjoint(b, volume) by { hide ReadRecord; Overlaps(b, volume); }
  }

  lemma ZeroDecodes()
    ensures Decode(FromBytes([0, 0])).Some?
    ensures Decode(FromBytes([])).Some?
  {
    assert FromBytes([0, 0]) == [0];
    assert Decode([0]) == Prepend(0 as char, Decode([0][1..]));
  }

  lemma ZeroRecord(b: seq<byte>, volume: string)
    requires |b| == HEADER && forall i :: 0 <= i < |b| ==> b[i] == 0
    ensures ReadChain(b, volume).Ok?
  {
    hide Decode, FromBytes;
    assert b[80..84] == [0, 0, 0, 0] && b[0..4] == [0, 0, 0, 0] && b[HEADER..HEADER] == [];
    assert Decode(FromBytes([])).Some? by { ZeroDecodes(); }
    UnfoldRecord(b, volume);
    ChainStep(b, volume);
  }

  lemma Overlaps(b: seq<byte>, volume: string)
    requires ReadRecord(b, volume).Ok?
    requires var h := ReadHeader(b); HEADER <= h.next <= |b| && HEADER + h.nameLength > h.next
    ensures !Disjoint(b, volume)
  {
    hide ReadRecord, ReadHeader;
  }
}
