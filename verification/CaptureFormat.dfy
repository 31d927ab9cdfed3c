/** The classic pcap file format: what src/pcap_reader.c makes of the bytes of a file, as a function
    of the bytes, and the bytes that tests/builder.c writes. */
module CaptureFormat {
  import opened Bytes

  const GLOBAL_HDR_LEN: nat := 24
  const RECORD_HDR_LEN: nat := 16
  const MAX_CAPLEN: nat := 262144
  const LINKTYPE_ETHERNET: nat := 1

  const MAGIC_USEC: uint32 := 0xA1B2C3D4
  const MAGIC_NSEC: uint32 := 0xA1B23C4D
  const MAGIC_USEC_SWAPPED: uint32 := 0xD4C3B2A1
  const MAGIC_NSEC_SWAPPED: uint32 := 0x4D3CB2A1
  const MAGIC_PCAPNG: uint32 := 0x0A0D0D0A

  datatype PcapStatus =
    | PcapOk | PcapEof | ErrNomem | ErrShortHeader | ErrBadMagic | ErrPcapng | ErrBadVersion
    | ErrBadLinktype | ErrTruncRecordHdr | ErrTruncRecord | ErrBadCaplen

  datatype FileInfo = FileInfo(bigEndian: bool, nsec: bool, versionMajor: uint16, versionMinor: uint16,
                               snaplen: uint32, linktype: uint32)

  const NO_INFO := FileInfo(false, false, 0, 0, 0, 0)

  datatype Record = Record(ts: uint64, caplen: uint32, wirelen: uint32, data: seq<byte>)

  function Rd16(p: seq<byte>, i: nat, bigEndian: bool): uint16
    requires i + 2 <= |p|
  {
    if bigEndian then LoadBe16(p, i) else LoadLe16(p, i)
  }

  function Rd32(p: seq<byte>, i: nat, bigEndian: bool): uint32
    requires i + 4 <= |p|
  {
    if bigEndian then LoadBe32(p, i) else LoadLe32(p, i)
  }

  // ----- Parsing -----

  datatype Global = Global(status: PcapStatus, info: FileInfo)

  function ParseMagic(hdr: seq<byte>): Global
    requires |hdr| >= 4
  {
    var magic := LoadLe32(hdr, 0);
    if magic == MAGIC_USEC then Global(PcapOk, NO_INFO)
    else if magic == MAGIC_NSEC then Global(PcapOk, NO_INFO.(nsec := true))
    else if magic == MAGIC_USEC_SWAPPED then Global(PcapOk, NO_INFO.(bigEndian := true))
    else if magic == MAGIC_NSEC_SWAPPED then Global(PcapOk, NO_INFO.(bigEndian := true, nsec := true))
    else if magic == MAGIC_PCAPNG then Global(ErrPcapng, NO_INFO)
    else Global(ErrBadMagic, NO_INFO)
  }

  /** `hdr` holds what is available of the 24 bytes. */
  function ParseGlobalHeader(hdr: seq<byte>): Global {
    if |hdr| < 4 then Global(ErrShortHeader, NO_INFO)
    else
      var m := ParseMagic(hdr);
      if m.status != PcapOk then m
      else if |hdr| < GLOBAL_HDR_LEN then Global(ErrShortHeader, m.info)
      else
        var be := m.info.bigEndian;
        var info := m.info.(versionMajor := Rd16(hdr, 4, be), versionMinor := Rd16(hdr, 6, be),
                            snaplen := Rd32(hdr, 16, be), linktype := Rd32(hdr, 20, be) % 0x400_0000);
        if info.versionMajor != 2 || info.versionMinor != 4 then Global(ErrBadVersion, info)
        else if info.linktype != LINKTYPE_ETHERNET then Global(ErrBadLinktype, info)
        else Global(PcapOk, info)
  }

  /** Nanoseconds since the epoch. The largest possible value fits 64 bits. */
  function Timestamp(sec: uint32, frac: uint32, nsec: bool): uint64 {
    sec as nat * 1_000_000_000 + (if nsec then frac as nat else frac as nat * 1000)
  }

  datatype RecordHeader = RecordHeader(status: PcapStatus, ts: uint64, caplen: uint32, wirelen: uint32)

  /** A captured length above the limit is refused; a wire length below it is raised. */
  function ParseRecordHeader(info: FileInfo, hdr: seq<byte>): RecordHeader
    requires |hdr| == RECORD_HDR_LEN
  {
    var be := info.bigEndian;
    var caplen, wirelen := Rd32(hdr, 8, be), Rd32(hdr, 12, be);
    if caplen > MAX_CAPLEN then RecordHeader(ErrBadCaplen, 0, caplen, wirelen)
    else
      RecordHeader(PcapOk, Timestamp(Rd32(hdr, 0, be), Rd32(hdr, 4, be), info.nsec), caplen,
                   if wirelen < caplen then caplen else wirelen)
  }

  datatype Step = Got(record: Record, rest: seq<byte>) | Stop(status: PcapStatus)

  /** The next record of the bytes that are left, or why there is none. */
  function NextRecord(info: FileInfo, data: seq<byte>): (s: Step)
    ensures s.Got? ==> |s.rest| < |data|
    ensures s.Stop? ==> s.status in {PcapEof, ErrTruncRecordHdr, ErrBadCaplen, ErrTruncRecord}
  {
    if |data| < RECORD_HDR_LEN then Stop(if data == [] then PcapEof else ErrTruncRecordHdr)
    else
      var h := ParseRecordHeader(info, data[..RECORD_HDR_LEN]);
      if h.status != PcapOk then Stop(h.status)
      else if |data| < RECORD_HDR_LEN + h.caplen then Stop(ErrTruncRecord)
      else Got(Record(h.ts, h.caplen, h.wirelen, data[RECORD_HDR_LEN..RECORD_HDR_LEN + h.caplen]),
               data[RECORD_HDR_LEN + h.caplen..])
  }

  datatype Capture = Capture(records: seq<Record>, status: PcapStatus)

  /** All records up to the one that cannot be read, and the reason it cannot. */
  function ReadRecords(info: FileInfo, data: seq<byte>): Capture
    decreases |data|
  {
    match NextRecord(info, data)
    case Stop(status) => Capture([], status)
    case Got(record, rest) =>
      var c := ReadRecords(info, rest);
      Capture([record] + c.records, c.status)
  }

  function ReadFile(file: seq<byte>): Capture {
    var g := ParseGlobalHeader(file[..Min(|file|, GLOBAL_HDR_LEN)]);
    if g.status != PcapOk then Capture([], g.status) else ReadRecords(g.info, file[GLOBAL_HDR_LEN..])
  }

  // ----- Writing -----

  function U16(v: uint16, bigEndian: bool): (s: seq<byte>)
    ensures |s| == 2
  {
    if bigEndian then Be16(v) else Le16(v)
  }

  function U32(v: uint32, bigEndian: bool): (s: seq<byte>)
    ensures |s| == 4
  {
    if bigEndian then Be32(v) else Le32(v)
  }

  /** The magic is written in the file's own byte order, which is how a reader learns that order. */
  function FormatBytes(bigEndian: bool, nsec: bool): (s: seq<byte>)
    ensures |s| == 8
  {
    U32(if nsec then MAGIC_NSEC else MAGIC_USEC, bigEndian) + U16(2, bigEndian) + U16(4, bigEndian)
  }

  function FourWords(a: uint32, b: uint32, c: uint32, d: uint32, bigEndian: bool): (s: seq<byte>)
    ensures |s| == 16
  {
    U32(a, bigEndian) + U32(b, bigEndian) + U32(c, bigEndian) + U32(d, bigEndian)
  }

  function GlobalBytes(bigEndian: bool, nsec: bool, snaplen: uint32, linktype: uint32): (s: seq<byte>)
    ensures |s| == GLOBAL_HDR_LEN
  {
    FormatBytes(bigEndian, nsec) + FourWords(0, 0, snaplen, linktype, bigEndian)
  }

  /** A record as it is handed to the writer. */
  datatype RawRecord = RawRecord(sec: uint32, frac: uint32, data: seq<byte>, wirelen: uint32)

  /** The length fits its field. */
  predicate Encodable(r: RawRecord) {
    |r.data| < 0x1_0000_0000
  }

  /** The reader accepts the length. */
  predicate Writable(r: RawRecord) {
    |r.data| <= MAX_CAPLEN
  }

  function RecordBytes(r: RawRecord, bigEndian: bool): (s: seq<byte>)
    requires Encodable(r)
    ensures |s| == RECORD_HDR_LEN + |r.data|
  {
    FourWords(r.sec, r.frac, |r.data|, r.wirelen, bigEndian) + r.data
  }

  /** What the reader is expected to return for it. */
  function AsRead(r: RawRecord, nsec: bool): Record
    requires Writable(r)
  {
    Record(Timestamp(r.sec, r.frac, nsec), |r.data|, if r.wirelen < |r.data| then |r.data| else r.wirelen, r.data)
  }

  ghost predicate AllWritable(rs: seq<RawRecord>) {
    forall i :: 0 <= i < |rs| ==> Writable(rs[i])
  }

  ghost function RecordsBytes(rs: seq<RawRecord>, bigEndian: bool): seq<byte>
    requires AllWritable(rs)
  {
    if rs == [] then [] else RecordBytes(rs[0], bigEndian) + RecordsBytes(rs[1..], bigEndian)
  }

  ghost function AllAsRead(rs: seq<RawRecord>, nsec: bool): (c: seq<Record>)
    requires AllWritable(rs)
    ensures |c| == |rs|
  {
    if rs == [] then [] else [AsRead(rs[0], nsec)] + AllAsRead(rs[1..], nsec)
  }

  // ----- What is accepted, and what is said of the rest -----

  /** A number of two or four bytes in the order of the file. */
  function Number(b: seq<byte>, bigEndian: bool): nat
    requires |b| == 2 || |b| == 4
  {
    if |b| == 2 then (if bigEndian then 256 * b[0] as nat + b[1] else 256 * b[1] as nat + b[0])
    else if bigEndian then 0x100_0000 * b[0] as nat + 0x1_0000 * b[1] as nat + 256 * b[2] as nat + b[3]
    else 0x100_0000 * b[3] as nat + 0x1_0000 * b[2] as nat + 256 * b[1] as nat + b[0]
  }

  lemma MagicVerdict(hdr: seq<byte>)
    requires |hdr| >= 4
    ensures var m, g := hdr[..4], ParseMagic(hdr);
            && (m == [0xD4, 0xC3, 0xB2, 0xA1] ==> g == Global(PcapOk, FileInfo(false, false, 0, 0, 0, 0)))
            && (m == [0x4D, 0x3C, 0xB2, 0xA1] ==> g == Global(PcapOk, FileInfo(false, true, 0, 0, 0, 0)))
            && (m == [0xA1, 0xB2, 0xC3, 0xD4] ==> g == Global(PcapOk, FileInfo(true, false, 0, 0, 0, 0)))
            && (m == [0xA1, 0xB2, 0x3C, 0x4D] ==> g == Global(PcapOk, FileInfo(true, true, 0, 0, 0, 0)))
            && (m == [0x0A, 0x0D, 0x0D, 0x0A] ==> g == Global(ErrPcapng, FileInfo(false, false, 0, 0, 0, 0)))
            && (m != [0xD4, 0xC3, 0xB2, 0xA1] && m != [0x4D, 0x3C, 0xB2, 0xA1] && m != [0xA1, 0xB2, 0xC3, 0xD4]
                && m != [0xA1, 0xB2, 0x3C, 0x4D] && m != [0x0A, 0x0D, 0x0D, 0x0A] ==>
                  g == Global(ErrBadMagic, FileInfo(false, false, 0, 0, 0, 0)))
  {
    var a, b, c, d := hdr[0], hdr[1], hdr[2], hdr[3];
    assert hdr[..4] == [a, b, c, d];
    MagicBytes(a, b, c, d);
  }

  lemma MagicBytes(a: byte, b: byte, c: byte, d: byte)
    ensures var v := d as nat * 0x100_0000 + c as nat * 0x1_0000 + b as nat * 0x100 + a;
            && (v == 0xA1B2C3D4 <==> a == 0xD4 && b == 0xC3 && c == 0xB2 && d == 0xA1)
            && (v == 0xA1B23C4D <==> a == 0x4D && b == 0x3C && c == 0xB2 && d == 0xA1)
            && (v == 0xD4C3B2A1 <==> a == 0xA1 && b == 0xB2 && c == 0xC3 && d == 0xD4)
            && (v == 0x4D3CB2A1 <==> a == 0xA1 && b == 0xB2 && c == 0x3C && d == 0x4D)
            && (v == 0x0A0D0D0A <==> a == 0x0A && b == 0x0D && c == 0x0D && d == 0x0A)
  {
  }

  /** A file is opened exactly when its magic is one of the four, its version 2.4 and the lower 26 bits of
      its link type say Ethernet; otherwise the first check that fails gives the reason. */
  lemma GlobalVerdict(hdr: seq<byte>)
    ensures var n, g := |hdr|, ParseGlobalHeader(hdr);
            && (n < 4 ==> g.status == ErrShortHeader)
            && (n >= 4 && ParseMagic(hdr).status != PcapOk ==> g == ParseMagic(hdr))
            && (n >= 4 && ParseMagic(hdr).status == PcapOk && n < 24 ==> g.status == ErrShortHeader)
            && (n >= 24 && ParseMagic(hdr).status == PcapOk ==>
                  var m := ParseMagic(hdr).info;
                  var be := m.bigEndian;
                  var major, minor := Number(hdr[4..6], be), Number(hdr[6..8], be);
                  var link := Number(hdr[20..24], be) % 0x400_0000;
                  && g.info == m.(versionMajor := major, versionMinor := minor, snaplen := Number(hdr[16..20], be),
                                  linktype := link)
                  && (g.status == ErrBadVersion <==> !(major == 2 && minor == 4))
                  && (g.status == ErrBadLinktype <==> major == 2 && minor == 4 && link != 1)
                  && (g.status == PcapOk <==> major == 2 && minor == 4 && link == 1))
  {
    hide ParseMagic;
  }

  /** A record is refused exactly when it claims more than 262144 captured bytes; its time is exact in
      nanoseconds, and its wire length at least its captured length. */
  lemma RecordVerdict(info: FileInfo, hdr: seq<byte>)
    requires |hdr| == 16
    ensures var h, be := ParseRecordHeader(info, hdr), info.bigEndian;
            var sec, frac := Number(hdr[0..4], be), Number(hdr[4..8], be);
            var cap, wire := Number(hdr[8..12], be), Number(hdr[12..16], be);
            && (cap > 262144 ==> h.status == ErrBadCaplen)
            && (cap <= 262144 ==>
                  && h.status == PcapOk && h.caplen == cap && h.wirelen == (if wire < cap then cap else wire)
                  && h.ts == if info.nsec then sec * 1_000_000_000 + frac else sec * 1_000_000_000 + frac * 1000)
  {
  }

  /** What comes next in the record area: nothing, a record, or the reason why it cannot be read. */
  lemma NextVerdict(info: FileInfo, data: seq<byte>)
    ensures var n, s := |data|, NextRecord(info, data);
            && (n == 0 ==> s == Stop(PcapEof)) && (0 < n < 16 ==> s == Stop(ErrTruncRecordHdr))
            && (n >= 16 ==>
                  var h := ParseRecordHeader(info, data[..16]);
                  && (h.status != PcapOk ==> s == Stop(h.status))
                  && (h.status == PcapOk && n < 16 + h.caplen ==> s == Stop(ErrTruncRecord))
                  && (h.status == PcapOk && n >= 16 + h.caplen ==>
                        s == Got(Record(h.ts, h.caplen, h.wirelen, data[16..16 + h.caplen]), data[16 + h.caplen..])))
  {
    hide ParseRecordHeader;
  }

  // ----- Reading undoes writing -----

  lemma ReadsBack16(p: seq<byte>, i: nat, v: uint16, bigEndian: bool)
    requires i + 2 <= |p| && p[i..i + 2] == U16(v, bigEndian)
    ensures Rd16(p, i, bigEndian) == v
  {
    LoadsUndoStores16(p, i, v);
  }

  lemma ReadsBack32(p: seq<byte>, i: nat, v: uint32, bigEndian: bool)
    requires i + 4 <= |p| && p[i..i + 4] == U32(v, bigEndian)
    ensures Rd32(p, i, bigEndian) == v
  {
    LoadsUndoStores32(p, i, v);
  }

  lemma MagicReadsBack(nsec: bool, bigEndian: bool)
    ensures ParseMagic(U32(if nsec then MAGIC_NSEC else MAGIC_USEC, bigEndian)) ==
            Global(PcapOk, NO_INFO.(bigEndian := bigEndian, nsec := nsec))
  {
  }

  /** The header that the writer produces is understood, in either byte order and resolution,
      whatever the bits above the link type. */
  lemma GlobalReadsBack(bigEndian: bool, nsec: bool, snaplen: uint32, linktype: uint32)
    requires linktype % 0x400_0000 == LINKTYPE_ETHERNET
    ensures ParseGlobalHeader(GlobalBytes(bigEndian, nsec, snaplen, linktype)) ==
            Global(PcapOk, FileInfo(bigEndian, nsec, 2, 4, snaplen, LINKTYPE_ETHERNET))
  {
    hide U16, U32, Rd16, Rd32;
    var g := GlobalBytes(bigEndian, nsec, snaplen, linktype);
    MagicReadsBack(nsec, bigEndian);
    assert g[..4] == U32(if nsec then MAGIC_NSEC else MAGIC_USEC, bigEndian);
    assert ParseMagic(g) == ParseMagic(g[..4]);
    ReadsBack16(g, 4, 2, bigEndian);
    ReadsBack16(g, 6, 4, bigEndian);
    ReadsBack32(g, 16, snaplen, bigEndian);
    ReadsBack32(g, 20, linktype, bigEndian);
  }

  lemma RecordHeaderReadsBack(info: FileInfo, r: RawRecord, rest: seq<byte>)
    requires Writable(r)
    ensures var h := ParseRecordHeader(info, (RecordBytes(r, info.bigEndian) + rest)[..RECORD_HDR_LEN]);
            h == RecordHeader(PcapOk, AsRead(r, info.nsec).ts, |r.data|, AsRead(r, info.nsec).wirelen)
  {
    hide U32, Rd32, Timestamp;
    var be := info.bigEndian;
    var hdr := (RecordBytes(r, be) + rest)[..RECORD_HDR_LEN];
    assert hdr == U32(r.sec, be) + U32(r.frac, be) + U32(|r.data|, be) + U32(r.wirelen, be);
    ReadsBack32(hdr, 0, r.sec, be);
    ReadsBack32(hdr, 4, r.frac, be);
    ReadsBack32(hdr, 8, |r.data|, be);
    ReadsBack32(hdr, 12, r.wirelen, be);
  }

  lemma RecordReadsBack(info: FileInfo, r: RawRecord, rest: seq<byte>)
    requires Writable(r)
    ensures NextRecord(info, RecordBytes(r, info.bigEndian) + rest) == Got(AsRead(r, info.nsec), rest)
    ensures var r' := NextRecord(info, RecordBytes(r, info.bigEndian) + rest).record;
            r'.ts == r.sec * 1_000_000_000 + (if info.nsec then r.frac as nat else r.frac * 1000)
  {
    hide ParseRecordHeader;
    RecordHeaderReadsBack(info, r, rest);
    var b := RecordBytes(r, info.bigEndian);
    assert (b + rest)[RECORD_HDR_LEN..RECORD_HDR_LEN + |r.data|] == r.data;
    assert (b + rest)[RECORD_HDR_LEN + |r.data|..] == rest;
  }

  /** The writer writes more than the reader accepts. */
  lemma OversizedRecordRefused(info: FileInfo, r: RawRecord, rest: seq<byte>)
    requires Encodable(r) && !Writable(r)
    ensures NextRecord(info, RecordBytes(r, info.bigEndian) + rest) == Stop(ErrBadCaplen)
  {
    hide U32, Rd32, Timestamp;
    var be := info.bigEndian;
    var hdr := (RecordBytes(r, be) + rest)[..RECORD_HDR_LEN];
    assert hdr == U32(r.sec, be) + U32(r.frac, be) + U32(|r.data|, be) + U32(r.wirelen, be);
    ReadsBack32(hdr, 8, |r.data|, be);
  }

  // ----- Cut files -----

  /** How many records lie wholly within the first `n` bytes of the record area. */
  ghost function WholeRecords(rs: seq<RawRecord>, n: nat): (k: nat)
    ensures k <= |rs|
  {
    if rs == [] || n < RECORD_HDR_LEN + |rs[0].data| then 0
    else 1 + WholeRecords(rs[1..], n - RECORD_HDR_LEN - |rs[0].data|)
  }

  /** How many bytes are left behind the last whole record. */
  ghost function LeftOver(rs: seq<RawRecord>, n: nat): nat {
    if rs == [] || n < RECORD_HDR_LEN + |rs[0].data| then n
    else LeftOver(rs[1..], n - RECORD_HDR_LEN - |rs[0].data|)
  }

  lemma CutRecordStops(info: FileInfo, r: RawRecord, n: nat)
    requires Writable(r) && n < RECORD_HDR_LEN + |r.data|
    ensures NextRecord(info, RecordBytes(r, info.bigEndian)[..n]) ==
            Stop(if n == 0 then PcapEof else if n < RECORD_HDR_LEN then ErrTruncRecordHdr else ErrTruncRecord)
  {
    hide ParseRecordHeader, Timestamp;
    var b := RecordBytes(r, info.bigEndian);
    if n >= RECORD_HDR_LEN {
      RecordHeaderReadsBack(info, r, []);
      assert b[..n][..RECORD_HDR_LEN] == (b + [])[..RECORD_HDR_LEN];
    }
  }

  /** Cutting the record area anywhere returns exactly the wholly contained records, and then the
      end of file if the cut is between records, or else the matching truncation error. */
  lemma {:induction false} CutRecordsRead(info: FileInfo, rs: seq<RawRecord>, n: nat)
    requires AllWritable(rs) && n <= |RecordsBytes(rs, info.bigEndian)|
    ensures var c := ReadRecords(info, RecordsBytes(rs, info.bigEndian)[..n]);
            && c.records == AllAsRead(rs, info.nsec)[..WholeRecords(rs, n)]
            && c.status == (var left := LeftOver(rs, n);
                            if left == 0 then PcapEof else if left < RECORD_HDR_LEN then ErrTruncRecordHdr
                            else ErrTruncRecord)
  {
    hide RecordBytes, NextRecord, AsRead;
    if rs == [] {
      NothingLeft(info);
    } else {
      var be := info.bigEndian;
      var b, rest := RecordBytes(rs[0], be), RecordsBytes(rs[1..], be);
      var all := RecordsBytes(rs, be);
      if n < |b| {
        CutRecordStops(info, rs[0], n);
        assert all[..n] == b[..n];
      } else {
        CutRecordsRead(info, rs[1..], n - |b|);
        RecordReadsBack(info, rs[0], rest[..n - |b|]);
        assert all[..n] == b + rest[..n - |b|];
        OneMore(AsRead(rs[0], info.nsec), AllAsRead(rs[1..], info.nsec), WholeRecords(rs[1..], n - |b|));
      }
    }
  }

  lemma NothingLeft(info: FileInfo)
    ensures ReadRecords(info, []) == Capture([], PcapEof)
  {
  }

  lemma OneMore(r: Record, rs: seq<Record>, k: nat)
    requires k <= |rs|
    ensures [r] + rs[..k] == ([r] + rs)[..k + 1]
  {
  }

  lemma {:induction false} AllRecordsWhole(rs: seq<RawRecord>, bigEndian: bool)
    requires AllWritable(rs)
    ensures var n := |RecordsBytes(rs, bigEndian)|; WholeRecords(rs, n) == |rs| && LeftOver(rs, n) == 0
  {
    if rs != [] {
      AllRecordsWhole(rs[1..], bigEndian);
    }
  }

  ghost function FileBytes(rs: seq<RawRecord>, bigEndian: bool, nsec: bool, snaplen: uint32, linktype: uint32)
    : seq<byte>
    requires AllWritable(rs)
  {
    GlobalBytes(bigEndian, nsec, snaplen, linktype) + RecordsBytes(rs, bigEndian)
  }

  lemma {:induction false} AsReadAt(rs: seq<RawRecord>, nsec: bool, i: nat)
    requires AllWritable(rs) && i < |rs|
    ensures AllAsRead(rs, nsec)[i] == AsRead(rs[i], nsec)
  {
    if i > 0 {
      AsReadAt(rs[1..], nsec, i - 1);
    }
  }

  /** Reading a file written from any records, in either byte order and resolution, returns those
      records and then the end of file: each with its bytes, its time in nanoseconds, and a wire length
      raised to the captured one. */
  lemma FileRoundTrip(rs: seq<RawRecord>, bigEndian: bool, nsec: bool, snaplen: uint32, linktype: uint32)
    requires AllWritable(rs) && linktype % 0x400_0000 == LINKTYPE_ETHERNET
    ensures ReadFile(FileBytes(rs, bigEndian, nsec, snaplen, linktype)) == Capture(AllAsRead(rs, nsec), PcapEof)
    ensures var c := ReadFile(FileBytes(rs, bigEndian, nsec, snaplen, linktype));
            && c.status == PcapEof && |c.records| == |rs|
            && forall i :: 0 <= i < |rs| ==>
                 var r := c.records[i];
                 && r.ts == rs[i].sec * 1_000_000_000 + (if nsec then rs[i].frac as nat else rs[i].frac * 1000)
                 && r.data == rs[i].data && r.caplen == |rs[i].data|
                 && r.wirelen == if rs[i].wirelen < |rs[i].data| then |rs[i].data| else rs[i].wirelen
  {
    hide ReadRecords, RecordsBytes, AllAsRead, WholeRecords, LeftOver;
    var file := FileBytes(rs, bigEndian, nsec, snaplen, linktype);
    CutFileRead(rs, bigEndian, nsec, snaplen, linktype, |file|);
    AllRecordsWhole(rs, bigEndian);
    assert file[..|file|] == file;
    assert AllAsRead(rs, nsec)[..|rs|] == AllAsRead(rs, nsec);
    forall i | 0 <= i < |rs|
      ensures AllAsRead(rs, nsec)[i] == AsRead(rs[i], nsec)
    {
      AsReadAt(rs, nsec, i);
    }
  }

  /** The same for the file cut anywhere behind its global header; cut inside it, the file is
      reported as too short. */
  lemma CutFileRead(rs: seq<RawRecord>, bigEndian: bool, nsec: bool, snaplen: uint32, linktype: uint32, n: nat)
    requires AllWritable(rs) && linktype % 0x400_0000 == LINKTYPE_ETHERNET
    requires n <= |FileBytes(rs, bigEndian, nsec, snaplen, linktype)|
    ensures var c := ReadFile(FileBytes(rs, bigEndian, nsec, snaplen, linktype)[..n]);
            if n < GLOBAL_HDR_LEN then c == Capture([], ErrShortHeader)
            else
              var m := n - GLOBAL_HDR_LEN; var left := LeftOver(rs, m);
              c == Capture(AllAsRead(rs, nsec)[..WholeRecords(rs, m)],
                           if left == 0 then PcapEof else if left < RECORD_HDR_LEN then ErrTruncRecordHdr
                           else ErrTruncRecord)
  {
    hide ReadRecords, RecordsBytes, AllAsRead, WholeRecords, LeftOver, ParseMagic, Rd16, Rd32;
    var g := GlobalBytes(bigEndian, nsec, snaplen, linktype);
    var file := FileBytes(rs, bigEndian, nsec, snaplen, linktype);
    GlobalReadsBack(bigEndian, nsec, snaplen, linktype);
    AllRecordsWhole(rs, bigEndian);
    var info := FileInfo(bigEndian, nsec, 2, 4, snaplen, LINKTYPE_ETHERNET);
    if n >= GLOBAL_HDR_LEN {
      assert file[..n][..GLOBAL_HDR_LEN] == g;
      assert file[..n][GLOBAL_HDR_LEN..] == RecordsBytes(rs, bigEndian)[..n - GLOBAL_HDR_LEN];
      CutRecordsRead(info, rs, n - GLOBAL_HDR_LEN);
    } else {
      assert file[..n][..n] == g[..n];
      if n >= 4 {
        assert g[..n][..4] == g[..4];
        MagicOfPrefix(g, n);
      }
    }
  }

  lemma MagicOfPrefix(g: seq<byte>, n: nat)
    requires 4 <= n <= |g|
    ensures ParseMagic(g[..n]) == ParseMagic(g)
  {
  }

  /** Whatever the bytes, written by us or not, cutting them short gives the same capture, or a prefix of
      its records and a reason that only a short file has. */
  ghost predicate CutOf(a: Capture, b: Capture) {
    || a == b
    || (a.records <= b.records && a.status in {PcapEof, ErrTruncRecordHdr, ErrTruncRecord, ErrShortHeader})
  }

  lemma {:induction false} CutReadsPrefix(info: FileInfo, data: seq<byte>, n: nat)
    requires n <= |data|
    ensures CutOf(ReadRecords(info, data[..n]), ReadRecords(info, data))
    decreases |data|
  {
    hide ParseRecordHeader;
    if n >= RECORD_HDR_LEN {
      assert data[..n][..RECORD_HDR_LEN] == data[..RECORD_HDR_LEN];
      var h := ParseRecordHeader(info, data[..RECORD_HDR_LEN]);
      var end := RECORD_HDR_LEN + h.caplen;
      if h.status == PcapOk && end <= n {
        assert data[..n][end..] == data[end..][..n - end];
        assert data[..n][RECORD_HDR_LEN..end] == data[RECORD_HDR_LEN..end];
        CutReadsPrefix(info, data[end..], n - end);
      }
    }
  }

  /** The same for any file, cut anywhere: it never yields a record that the whole file does not. */
  lemma AnyCutReadsPrefix(file: seq<byte>, n: nat)
    requires n <= |file|
    ensures CutOf(ReadFile(file[..n]), ReadFile(file))
  {
    hide ReadRecords, ParseMagic, Rd16, Rd32;
    var m, all := Min(n, GLOBAL_HDR_LEN), Min(|file|, GLOBAL_HDR_LEN);
    assert file[..n][..m] == file[..m] == file[..all][..m];
    if m >= 4 {
      MagicOfPrefix(file[..all], m);
    }
    if n >= GLOBAL_HDR_LEN {
      assert file[..n][GLOBAL_HDR_LEN..] == file[GLOBAL_HDR_LEN..][..n - GLOBAL_HDR_LEN];
      CutReadsPrefix(ParseGlobalHeader(file[..m]).info, file[GLOBAL_HDR_LEN..], n - GLOBAL_HDR_LEN);
    }
  }
}
