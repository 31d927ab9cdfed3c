/** The reader of src/pcap_reader.c over a capture in memory: it moves a position through the
    buffer, counts records and remembers its first error for good. */
module CaptureReader {
  import opened Bytes
  import opened CaptureFormat
  import opened Collections

  class Reader {
    const mem: array<byte>
    const memLen: nat
    var memPos: nat
    var info: FileInfo
    var records: nat
    var error: PcapStatus

    predicate Valid()
      reads this
    {
      memPos <= memLen <= mem.Length
    }

    /** The bytes that have not been read. */
    function Rest(): (s: seq<byte>)
      requires Valid()
      reads this, mem
      ensures |s| == memLen - memPos
    {
      mem[memPos..memLen]
    }

    /** What the file still has to say. */
    ghost function Remaining(): Capture
      requires Valid()
      reads this, mem
    {
      if error != PcapOk then Capture([], error) else ReadRecords(info, Rest())
    }

    /** Opens a capture that is in memory. A header that is short but recognisably not a pcap
        header is reported as such. */
    constructor (data: array<byte>, len: nat)
      requires len <= data.Length
      ensures Valid() && mem == data && memLen == len && records == 0
      ensures Remaining() == ReadFile(data[..len])
      ensures error == ParseGlobalHeader(data[..Min(len, GLOBAL_HDR_LEN)]).status && error != ErrNomem
    {
      mem, memLen, memPos, records, error, info := data, len, 0, 0, PcapOk, NO_INFO;
      new;
      var got, start := Take(GLOBAL_HDR_LEN);
      if got < GLOBAL_HDR_LEN {
        error := ErrShortHeader;
        if got >= 4 {
          error := ParseGlobalHeader(mem[..got]).status;
        }
        assert mem[..got] == data[..len];
      } else {
        var g := ParseGlobalHeader(mem[start..start + GLOBAL_HDR_LEN]);
        info := g.info;
        if g.status != PcapOk {
          error := g.status;
        }
        assert data[..len][..GLOBAL_HDR_LEN] == data[..GLOBAL_HDR_LEN];
        assert data[..len][GLOBAL_HDR_LEN..] == mem[memPos..memLen];
      }
    }

    /** Consumes the next `n` bytes, or all that are left if there are fewer. */
    method Take(n: nat) returns (got: nat, start: nat)
      requires Valid()
      modifies this`memPos
      ensures Valid() && start == old(memPos)
      ensures got == Min(n, memLen - old(memPos))
      ensures memPos == start + got
    {
      var left := memLen - memPos;
      start := memPos;
      if n > left {
        got := left;
        memPos := memLen;
      } else {
        got := n;
        memPos := memPos + n;
      }
    }

    /** Fetches the next record. Its bytes stay where they are in the buffer, from `start` on. */
    method Next() returns (st: PcapStatus, rec: Record, start: nat)
      requires Valid()
      modifies this`memPos, this`records, this`error
      ensures Valid() && memPos >= old(memPos) && (st == PcapOk ==> memPos > old(memPos))
      ensures old(error) != PcapOk ==> st == error == old(error) && memPos == old(memPos)
      ensures old(error) == PcapOk ==>
                match NextRecord(info, old(Rest()))
                case Stop(status) => st == error == status
                case Got(record, rest) => st == error == PcapOk && rec == record && Rest() == rest
      ensures st == PcapOk ==> start + rec.caplen <= mem.Length && rec.data == mem[start..start + rec.caplen]
      ensures old(Remaining()) ==
              if st == PcapOk then Capture([rec] + Remaining().records, Remaining().status) else Capture([], st)
      ensures st == ErrNomem ==> old(error) == ErrNomem
      ensures records == old(records) + if st == PcapOk then 1 else 0
    {
      hide ParseRecordHeader, NextRecord;
      rec := Record(0, 0, 0, []);
      start := 0;
      if error != PcapOk {
        return error, rec, start;
      }
      NextInBuffer(info, mem[..], memPos, memLen);
      assert mem[..][memPos..memLen] == Rest();
      var got;
      got, start := Take(RECORD_HDR_LEN);
      if got < RECORD_HDR_LEN {
        error := if got == 0 then PcapEof else ErrTruncRecordHdr;
        return error, rec, start;
      }
      assert mem[..][start..start + RECORD_HDR_LEN] == mem[start..start + RECORD_HDR_LEN];
      var h := ParseRecordHeader(info, mem[start..start + RECORD_HDR_LEN]);
      if h.status != PcapOk {
        error := h.status;
        return error, rec, start;
      }
      got, start := Take(h.caplen);
      if got < h.caplen {
        error := ErrTruncRecord;
        return error, rec, start;
      }
      assert mem[..][start..start + h.caplen] == mem[start..start + h.caplen] && mem[..][memPos..memLen] == Rest();
      rec := Record(h.ts, h.caplen, h.wirelen, mem[start..start + h.caplen]);
      records := records + 1;
      return PcapOk, rec, start;
    }

    /** Calling `Next` until it fails returns the records of the file, each once and in order, and
        the reason why there are no more; asking again changes nothing. */
    method ReadAll() returns (all: seq<Record>, st: PcapStatus)
      requires Valid()
      modifies this`memPos, this`records, this`error
      ensures Valid() && Capture(all, st) == old(Remaining())
      ensures st == error != PcapOk && Remaining() == Capture([], st)
      ensures records == old(records) + |all|
    {
      hide NextRecord;
      all := [];
      var rec, start;
      st, rec, start := Next();
      while st == PcapOk
        invariant Valid() && st == error
        invariant old(Remaining()) ==
                  if st == PcapOk then Capture(all + [rec] + Remaining().records, Remaining().status)
                  else Capture(all, st)
        invariant records == old(records) + |all| + if st == PcapOk then 1 else 0
        decreases memLen - memPos, error == PcapOk
      {
        all := all + [rec];
        st, rec, start := Next();
      }
    }
  }

  /** The next record, by its place in the buffer. */
  lemma NextInBuffer(info: FileInfo, all: seq<byte>, at: nat, end: nat)
    requires at <= end <= |all|
    ensures NextRecord(info, all[at..end]) ==
            if end - at < RECORD_HDR_LEN then Stop(if at == end then PcapEof else ErrTruncRecordHdr)
            else
              var h := ParseRecordHeader(info, all[at..at + RECORD_HDR_LEN]);
              var start := at + RECORD_HDR_LEN;
              if h.status != PcapOk then Stop(h.status)
              else if end - start < h.caplen then Stop(ErrTruncRecord)
              else Got(Record(h.ts, h.caplen, h.wirelen, all[start..start + h.caplen]), all[start + h.caplen..end])
  {
    hide ParseRecordHeader;
    if end - at >= RECORD_HDR_LEN {
      SliceOfSlice(all, at, end, 0, RECORD_HDR_LEN);
      var h := ParseRecordHeader(info, all[at..at + RECORD_HDR_LEN]);
      if h.status == PcapOk && RECORD_HDR_LEN + h.caplen <= end - at {
        SliceOfSlice(all, at, end, RECORD_HDR_LEN, RECORD_HDR_LEN + h.caplen);
        SliceOfSlice(all, at, end, RECORD_HDR_LEN + h.caplen, end - at);
      }
    }
  }
}
