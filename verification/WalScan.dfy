/** The record format of a WAL segment and the scan that rebuilds its index (internal/wal/wal.go). */
module WalScan {
  import opened Bytes
  import opened FrameCodec

  const RECORD_HEAD: nat := 4

  type FrameBytes = seq<Byte>

  datatype FrameIndex = FrameIndex(seg: nat, offset: nat, length: nat, seqNo: nat, typ: Byte)

  /** A frame as Encode produces it. */
  predicate WellFormed(f: FrameBytes) {
    && |f| >= HEADER_SIZE
    && ParseHeader(f[..HEADER_SIZE]).Ok?
    && |f| == HEADER_SIZE + ParseHeader(f[..HEADER_SIZE]).value.length
  }

  function Record(f: FrameBytes): (r: seq<Byte>)
    ensures |r| == RECORD_HEAD + |f|
  {
    ToBE(|f|, RECORD_HEAD) + f
  }

  /** The bytes of a segment that holds `frames`. */
  function Segment(frames: seq<FrameBytes>): seq<Byte> {
    if frames == [] then [] else Record(frames[0]) + Segment(frames[1..])
  }

  ghost predicate AllWellFormed(frames: seq<FrameBytes>) {
    forall f | f in frames :: WellFormed(f)
  }

  /** What the index must say about `frames` stored from offset `off` on. */
  ghost function Entries(seg: nat, off: nat, frames: seq<FrameBytes>): (es: seq<FrameIndex>)
    requires AllWellFormed(frames)
    ensures |es| == |frames|
    decreases |frames|
  {
    if frames == [] then []
    else [EntryAt(seg, off, frames[0])] + Entries(seg, off + RECORD_HEAD + |frames[0]|, frames[1..])
  }

  /** Those entries whose record ends after the first `skip` bytes. */
  ghost function Unacked(seg: nat, off: nat, frames: seq<FrameBytes>, skip: nat): (es: seq<FrameIndex>)
    requires AllWellFormed(frames)
    ensures |es| <= |frames|
    decreases |frames|
  {
    if frames == [] then []
    else
      var end := off + RECORD_HEAD + |frames[0]|;
      (if end > skip then [EntryAt(seg, off, frames[0])] else []) + Unacked(seg, end, frames[1..], skip)
  }

  /** The seq in the header of a frame. */
  function SeqOf(f: FrameBytes): nat {
    if |f| < HEADER_SIZE then 0 else RawHeader(f).seqNo
  }

  function EntryAt(seg: nat, offset: nat, f: FrameBytes): (e: FrameIndex)
    requires WellFormed(f) || |f| >= HEADER_SIZE
    ensures e.seg == seg && e.offset == offset && e.length == |f| && e.seqNo == SeqOf(f)
  {
    FrameIndex(seg, offset, |f|, SeqOf(f), f[3])
  }

  // ---------------------------------------------------------------- the scan, as the code does it

  function RecordLength(file: seq<Byte>, off: nat): nat
    requires off + RECORD_HEAD <= |file|
  {
    FromBE(file[off..off + RECORD_HEAD])
  }

  /** The 24 bytes at `off` are a record head and a frame header that agree with each other. */
  predicate HeadersAgree(file: seq<Byte>, off: nat)
    requires off + RECORD_HEAD + HEADER_SIZE <= |file|
  {
    var length := RecordLength(file, off);
    var hdr := ParseHeader(file[off + RECORD_HEAD..off + RECORD_HEAD + HEADER_SIZE]);
    0 < length <= MAX_FRAME_LEN && hdr.Ok? && length == HEADER_SIZE + hdr.value.length
  }

  /** A record that starts at `p`, agrees with its frame header and does not pass the end of file. */
  predicate WholeRecordAt(file: seq<Byte>, p: nat) {
    && p + RECORD_HEAD + HEADER_SIZE <= |file| && HeadersAgree(file, p)
    && p + RECORD_HEAD + RecordLength(file, p) <= |file|
  }

  function SearchLimit(file: seq<Byte>, bad: nat): nat {
    var limit := bad + MAX_FRAME_LEN + RECORD_HEAD;
    if limit > |file| then |file| else limit
  }

  /** The first record start after `bad` that the resync search accepts, if any. */
  function Resync(file: seq<Byte>, p: nat, limit: nat): Result<nat>
    requires limit <= |file|
    decreases limit - p
  {
    if p + RECORD_HEAD + HEADER_SIZE > limit then Err(Corrupt)
    else if WholeRecordAt(file, p) then Ok(p)
    else Resync(file, p + 1, limit)
  }

  /** Finds the least acceptable record start after `bad`. */
  method ResyncRecord(file: seq<Byte>, bad: nat) returns (r: Result<nat>)
    ensures r == Resync(file, bad + 1, SearchLimit(file, bad))
    ensures r.Ok? ==> bad < r.value && WholeRecordAt(file, r.value)
    ensures r.Ok? ==> forall p | bad < p < r.value :: !WholeRecordAt(file, p)
    ensures r.Err? ==>
              forall p | bad < p && p + RECORD_HEAD + HEADER_SIZE <= SearchLimit(file, bad) :: !WholeRecordAt(file, p)
  {
    var limit := SearchLimit(file, bad);
    var p := bad + 1;
    while p + RECORD_HEAD + HEADER_SIZE <= limit
      invariant p > bad
      invariant Resync(file, p, limit) == Resync(file, bad + 1, limit)
      invariant forall q | bad < q < p :: !WholeRecordAt(file, q)
    {
      var length := RecordLength(file, p);
      if 0 < length <= MAX_FRAME_LEN && p + RECORD_HEAD + length <= |file| {
        var hdr := ParseHeader(file[p + RECORD_HEAD..p + RECORD_HEAD + HEADER_SIZE]);
        if hdr.Ok? && length == HEADER_SIZE + hdr.value.length {
          return Ok(p);
        }
      }
      p := p + 1;
    }
    r := Err(Corrupt);
  }

  /** The index built from one segment file and the file as the scan leaves it, or a refusal because
      the corruption lies in the acknowledged prefix. */
  datatype Scanned = Scanned(index: seq<FrameIndex>, file: seq<Byte>) | Refused

  /** What one step of the scan at `off` does. */
  datatype ScanStep = Stop | Cut | Refuse | Skip(next: nat) | Found(entry: FrameIndex)

  /** The scan stops at the end of file, cuts a torn tail, or continues past a bad record. `last` says
      that nothing can follow, so the scan ends here even if the search found a record. */
  function AtBadRecord(file: seq<Byte>, bad: nat, skip: nat, last: bool): ScanStep {
    var next := Resync(file, bad + 1, SearchLimit(file, bad));
    if next.Ok? then (if last then Stop else Skip(next.value))
    else if bad < skip then Refuse
    else Cut
  }

  function StepAt(seg: nat, file: seq<Byte>, off: nat, skip: nat): ScanStep {
    if off >= |file| then Stop
    else if off + RECORD_HEAD > |file| then AtBadRecord(file, off, skip, true)
    else if !(0 < RecordLength(file, off) <= MAX_FRAME_LEN) then AtBadRecord(file, off, skip, false)
    else if off + RECORD_HEAD + HEADER_SIZE > |file| then AtBadRecord(file, off, skip, true)
    else if !HeadersAgree(file, off) then AtBadRecord(file, off, skip, false)
    else
      var hdr := RawHeader(file[off + RECORD_HEAD..off + RECORD_HEAD + HEADER_SIZE]);
      Found(FrameIndex(seg, off, RecordLength(file, off), hdr.seqNo, hdr.typ))
  }

  lemma {:induction false} ResyncForward(file: seq<Byte>, p: nat, limit: nat)
    requires limit <= |file|
    ensures Resync(file, p, limit).Ok? ==> p <= Resync(file, p, limit).value < |file|
    decreases limit - p
  {
    if p + RECORD_HEAD + HEADER_SIZE <= limit && !WholeRecordAt(file, p) {
      ResyncForward(file, p + 1, limit);
    }
  }

  function Remaining(file: seq<Byte>, off: nat): nat {
    if off < |file| then |file| - off else 0
  }

  lemma StepProgress(seg: nat, file: seq<Byte>, off: nat, skip: nat)
    ensures match StepAt(seg, file, off, skip)
            case Skip(next) => Remaining(file, next) < Remaining(file, off)
            case Found(e) => Remaining(file, off + RECORD_HEAD + e.length) < Remaining(file, off)
            case Cut => off <= |file|
            case _ => true
  {
    ResyncForward(file, off + 1, SearchLimit(file, off));
  }

  /** The whole scan from `off` on. Records that end within the first `skip` bytes are acknowledged. */
  function Scan(seg: nat, file: seq<Byte>, off: nat, skip: nat): Scanned
    decreases Remaining(file, off)
  {
    StepProgress(seg, file, off, skip);
    match StepAt(seg, file, off, skip)
    case Stop => Scanned([], file)
    case Cut => Scanned([], file[..off])
    case Refuse => Refused
    case Skip(next) => Scan(seg, file, next, skip)
    case Found(e) =>
      var end := off + RECORD_HEAD + e.length;
      var rest := Scan(seg, file, end, skip);
      if rest.Refused? || end <= skip then rest else rest.(index := [e] + rest.index)
  }

  /** One turn of the scan loop: read the record head, then the frame header, and on anything
      invalid look for the next record. */
  method Examine(seg: nat, file: seq<Byte>, off: nat, skip: nat) returns (st: ScanStep)
    ensures st == StepAt(seg, file, off, skip)
  {
    if off >= |file| {
      return Stop;
    }
    if off + RECORD_HEAD > |file| {
      var next := ResyncRecord(file, off);
      return if next.Ok? then Stop else if off < skip then Refuse else Cut;
    }
    var length := RecordLength(file, off);
    if length <= 0 || length > MAX_FRAME_LEN {
      var next := ResyncRecord(file, off);
      return if next.Ok? then Skip(next.value) else if off < skip then Refuse else Cut;
    }
    if off + RECORD_HEAD + HEADER_SIZE > |file| {
      var next := ResyncRecord(file, off);
      return if next.Ok? then Stop else if off < skip then Refuse else Cut;
    }
    var hdr := ParseHeader(file[off + RECORD_HEAD..off + RECORD_HEAD + HEADER_SIZE]);
    if hdr.Err? || length != HEADER_SIZE + hdr.value.length {
      var next := ResyncRecord(file, off);
      return if next.Ok? then Skip(next.value) else if off < skip then Refuse else Cut;
    }
    return Found(FrameIndex(seg, off, length, hdr.value.seqNo, hdr.value.typ));
  }

  lemma ScanUnfold(seg: nat, file: seq<Byte>, off: nat, skip: nat, step: ScanStep)
    requires step == StepAt(seg, file, off, skip)
    ensures Scan(seg, file, off, skip) ==
            match step
            case Stop => Scanned([], file)
            case Cut => (assert off <= |file|; Scanned([], file[..off]))
            case Refuse => Refused
            case Skip(next) => Scan(seg, file, next, skip)
            case Found(e) =>
              var end := off + RECORD_HEAD + e.length;
              Preceded(if end > skip then [e] else [], Scan(seg, file, end, skip))
  {
    hide StepAt;
  }

  function Preceded(index: seq<FrameIndex>, rest: Scanned): Scanned {
    if rest.Refused? then Refused else rest.(index := index + rest.index)
  }

  /** indexSegment: one pass over a segment file. */
  method IndexSegment(seg: nat, file: seq<Byte>, skip: nat) returns (r: Scanned)
    ensures r == Scan(seg, file, 0, skip)
  {
    hide StepAt;
    var off: nat := 0;
    var index: seq<FrameIndex> := [];
    while true
      invariant Scan(seg, file, 0, skip) == Preceded(index, Scan(seg, file, off, skip))
      decreases Remaining(file, off)
    {
      StepProgress(seg, file, off, skip);
      var step := Examine(seg, file, off, skip);
      ScanUnfold(seg, file, off, skip, step);
      match step {
        case Stop => return Scanned(index, file);
        case Cut => return Scanned(index, file[..off]);
        case Refuse => return Refused;
        case Skip(next) => off := next;
        case Found(e) =>
          if off + RECORD_HEAD + e.length > skip {
            index := index + [e];
          }
          off := off + RECORD_HEAD + e.length;
      }
    }
  }

  // ---------------------------------------------------------------- recovery

  lemma RecordHeadOf(f: FrameBytes)
    requires WellFormed(f)
    ensures FromBE(ToBE(|f|, RECORD_HEAD)) == |f|
  {
    Widths();
    FromToBE(|f|, RECORD_HEAD);
  }

  lemma RecordSize(f: FrameBytes)
    requires WellFormed(f)
    ensures RECORD_HEAD + HEADER_SIZE <= |Record(f)|
  {
  }

  lemma StepPastEnd(seg: nat, file: seq<Byte>, off: nat, skip: nat)
    requires off >= |file|
    ensures StepAt(seg, file, off, skip) == Stop
  {
  }

  lemma HeaderOfPrefix(f: FrameBytes)
    requires |f| >= HEADER_SIZE
    ensures RawHeader(f[..HEADER_SIZE]) == RawHeader(f)
  {
    var h := f[..HEADER_SIZE];
    assert h[0..2] == f[0..2] && h[4..12] == f[4..12] && h[12..16] == f[12..16] && h[16..20] == f[16..20];
  }

  /** A file in which both headers of record `f` stand at `off`. */
  ghost predicate HeadersAt(file: seq<Byte>, off: nat, f: FrameBytes) {
    && off + RECORD_HEAD + HEADER_SIZE <= |file| && |f| >= HEADER_SIZE
    && file[off..off + RECORD_HEAD] == ToBE(|f|, RECORD_HEAD)
    && file[off + RECORD_HEAD..off + RECORD_HEAD + HEADER_SIZE] == f[..HEADER_SIZE]
  }

  /** The scan finds a record wherever both its headers stand. */
  lemma StepAtHeaders(seg: nat, file: seq<Byte>, off: nat, skip: nat, f: FrameBytes)
    requires WellFormed(f) && HeadersAt(file, off, f)
    ensures StepAt(seg, file, off, skip) == Found(EntryAt(seg, off, f))
  {
    RecordHeadOf(f);
    HeaderOfPrefix(f);
  }

  lemma RecordInside(pre: seq<Byte>, f: FrameBytes, t: nat, post: seq<Byte>)
    requires WellFormed(f) && RECORD_HEAD + HEADER_SIZE <= t <= |Record(f)|
    ensures HeadersAt(pre + Record(f)[..t] + post, |pre|, f)
  {
    var r := Record(f)[..t];
    var file, off := pre + r + post, |pre|;
    assert r[..RECORD_HEAD] == ToBE(|f|, RECORD_HEAD);
    assert r[RECORD_HEAD..RECORD_HEAD + HEADER_SIZE] == f[..HEADER_SIZE];
    assert file[off..off + RECORD_HEAD] == r[..RECORD_HEAD];
    assert file[off + RECORD_HEAD..off + RECORD_HEAD + HEADER_SIZE] == r[RECORD_HEAD..RECORD_HEAD + HEADER_SIZE];
  }

  lemma {:induction false} NothingToResync(file: seq<Byte>, p: nat, limit: nat)
    requires limit <= |file| < p + RECORD_HEAD + HEADER_SIZE
    ensures Resync(file, p, limit).Err?
  {
  }

  /** Up to 23 bytes that no record can be read from are cut off. */
  lemma StepAtTail(seg: nat, file: seq<Byte>, off: nat, skip: nat)
    requires off <= |file| < off + RECORD_HEAD + HEADER_SIZE && (off < |file| ==> skip <= off)
    ensures StepAt(seg, file, off, skip) == if off == |file| then Stop else Cut
  {
    NothingToResync(file, off + 1, SearchLimit(file, off));
  }

  /** The scan of a whole record. */
  lemma ScanRecord(seg: nat, pre: seq<Byte>, f: FrameBytes, after: seq<Byte>, skip: nat)
    requires WellFormed(f)
    ensures var file, end := pre + Record(f) + after, |pre + Record(f)|;
            Scan(seg, file, |pre|, skip)
            == Preceded(if end > skip then [EntryAt(seg, |pre|, f)] else [], Scan(seg, file, end, skip))
  {
    hide StepAt, HeadersAt, WellFormed, Scan, Preceded;
    var file := pre + Record(f) + after;
    RecordSize(f);
    assert Record(f)[..|Record(f)|] == Record(f);
    RecordInside(pre, f, |Record(f)|, after);
    StepAtHeaders(seg, file, |pre|, skip, f);
    ScanUnfold(seg, file, |pre|, skip, Found(EntryAt(seg, |pre|, f)));
  }

  lemma ScanTail(seg: nat, pre: seq<Byte>, tail: seq<Byte>, skip: nat)
    requires |tail| < RECORD_HEAD + HEADER_SIZE && (tail != [] ==> skip <= |pre|)
    ensures Scan(seg, pre + tail, |pre|, skip) == Scanned([], pre)
  {
    hide StepAt, Scan;
    var file, off := pre + tail, |pre|;
    StepAtTail(seg, file, off, skip);
    ScanUnfold(seg, file, off, skip, if tail == [] then Stop else Cut);
    assert file[..off] == pre;
    assert tail == [] ==> file == pre;
  }

  lemma SegmentCons(pre: seq<Byte>, frames: seq<FrameBytes>)
    requires frames != []
    ensures pre + Segment(frames) == pre + Record(frames[0]) + Segment(frames[1..])
  {
    hide Record;
  }

  /** A segment of whole records, followed by up to 23 bytes of anything, is scanned to exactly the
      records that end after the acknowledged offset, in order, and cut to the last record. */
  lemma {:induction false} ScanExact(seg: nat, pre: seq<Byte>, frames: seq<FrameBytes>, tail: seq<Byte>, skip: nat)
    requires AllWellFormed(frames) && |tail| < RECORD_HEAD + HEADER_SIZE
    requires tail != [] ==> skip <= |pre + Segment(frames)|
    ensures Scan(seg, pre + Segment(frames) + tail, |pre|, skip)
            == Scanned(Unacked(seg, |pre|, frames, skip), pre + Segment(frames))
    decreases |frames|
  {
    hide WellFormed, Scan, Record, EntryAt;
    if frames == [] {
      assert pre + Segment(frames) == pre;
      ScanTail(seg, pre, tail, skip);
    } else {
      var f, rest := frames[0], frames[1..];
      SegmentCons(pre, frames);
      assert pre + Segment(frames) + tail == pre + Record(f) + (Segment(rest) + tail);
      ScanRecord(seg, pre, f, Segment(rest) + tail, skip);
      ScanExact(seg, pre + Record(f), rest, tail, skip);
    }
  }

  lemma {:induction false} UnackedBehind(seg: nat, off: nat, frames: seq<FrameBytes>, skip: nat)
    requires AllWellFormed(frames)
    ensures forall e | e in Unacked(seg, off, frames, skip) :: e.offset >= off
    decreases |frames|
  {
    hide WellFormed, EntryAt;
    if frames != [] {
      UnackedBehind(seg, off + RECORD_HEAD + |frames[0]|, frames[1..], skip);
    }
  }

  lemma {:induction false} UnackedIff(seg: nat, off: nat, frames: seq<FrameBytes>, skip: nat, j: nat)
    requires AllWellFormed(frames) && j < |frames|
    ensures var e := Entries(seg, off, frames)[j];
            e.offset >= off && (e in Unacked(seg, off, frames, skip) <==> e.offset + RECORD_HEAD + e.length > skip)
    decreases |frames|
  {
    hide WellFormed, EntryAt;
    var end := off + RECORD_HEAD + |frames[0]|;
    UnackedBehind(seg, end, frames[1..], skip);
    if j > 0 {
      UnackedIff(seg, end, frames[1..], skip, j - 1);
    }
  }

  /** Whatever offset a checkpoint calls acknowledged, a reopened WAL loses exactly the frames whose records
      end at or before it. */
  lemma LostIff(seg: nat, frames: seq<FrameBytes>, skip: nat, j: nat)
    requires AllWellFormed(frames) && j < |frames|
    ensures var r, e := Scan(seg, Segment(frames), 0, skip), Entries(seg, 0, frames)[j];
            r.Scanned? && r.file == Segment(frames) && (e !in r.index <==> e.offset + RECORD_HEAD + e.length <= skip)
  {
    hide WellFormed, Scan, Segment, Entries, Unacked;
    assert [] + Segment(frames) + [] == Segment(frames) == [] + Segment(frames);
    ScanExact(seg, [], frames, [], skip);
    UnackedIff(seg, 0, frames, skip, j);
  }

  /** With the 24 bytes of both headers written, a torn record is indexed although its end lies past
      the end of the file. */
  lemma {:induction false} ScanPhantom(
    seg: nat, pre: seq<Byte>, frames: seq<FrameBytes>, f: FrameBytes, t: nat, skip: nat)
    requires AllWellFormed(frames) && WellFormed(f)
    requires RECORD_HEAD + HEADER_SIZE <= t < |Record(f)| && skip <= |pre + Segment(frames)|
    ensures var file := pre + Segment(frames) + Record(f)[..t];
            Scan(seg, file, |pre|, skip)
            == Scanned(Unacked(seg, |pre|, frames, skip) + [EntryAt(seg, |pre + Segment(frames)|, f)], file)
    decreases |frames|
  {
    hide WellFormed, Scan, Record, EntryAt;
    var tail := Record(f)[..t];
    if frames == [] {
      assert pre + Segment(frames) == pre;
      ScanTorn(seg, pre, f, t, skip);
    } else {
      var g, rest := frames[0], frames[1..];
      SegmentCons(pre, frames);
      assert pre + Segment(frames) + tail == pre + Record(g) + (Segment(rest) + tail);
      ScanRecord(seg, pre, g, Segment(rest) + tail, skip);
      ScanPhantom(seg, pre + Record(g), rest, f, t, skip);
    }
  }

  lemma ScanTorn(seg: nat, pre: seq<Byte>, f: FrameBytes, t: nat, skip: nat)
    requires WellFormed(f) && RECORD_HEAD + HEADER_SIZE <= t < |Record(f)| && skip <= |pre|
    ensures var file := pre + Record(f)[..t];
            Scan(seg, file, |pre|, skip) == Scanned([EntryAt(seg, |pre|, f)], file)
  {
    hide StepAt, HeadersAt, WellFormed, Scan, Record, EntryAt;
    var file, off := pre + Record(f)[..t], |pre|;
    assert file == pre + Record(f)[..t] + [];
    RecordInside(pre, f, t, []);
    StepAtHeaders(seg, file, off, skip, f);
    ScanUnfold(seg, file, off, skip, Found(EntryAt(seg, off, f)));
    StepPastEnd(seg, file, off + RECORD_HEAD + |f|, skip);
    ScanUnfold(seg, file, off + RECORD_HEAD + |f|, skip, Stop);
  }

  /** A crash that leaves the first `t` bytes of a record is recovered exactly when the frame header
      did not make it to the file whole. */
  lemma TornTailIff(seg: nat, frames: seq<FrameBytes>, f: FrameBytes, t: nat, skip: nat)
    requires AllWellFormed(frames) && WellFormed(f) && t < |Record(f)| && skip <= |Segment(frames)|
    ensures Scan(seg, Segment(frames) + Record(f)[..t], 0, skip)
            == Scanned(Unacked(seg, 0, frames, skip), Segment(frames))
            <==> t < RECORD_HEAD + HEADER_SIZE
  {
    assert [] + Segment(frames) == Segment(frames);
    if t < RECORD_HEAD + HEADER_SIZE {
      ScanExact(seg, [], frames, Record(f)[..t], skip);
    } else {
      ScanPhantom(seg, [], frames, f, t, skip);
    }
  }

  // ---------------------------------------------------------------- damage in the middle

  /** The first acceptable record start from `p` on that the search may look at. */
  lemma {:induction false} ResyncFinds(file: seq<Byte>, p: nat, limit: nat, q: nat)
    requires limit <= |file| && p <= q && q + RECORD_HEAD + HEADER_SIZE <= limit && WholeRecordAt(file, q)
    requires forall k | p <= k < q :: !WholeRecordAt(file, k)
    ensures Resync(file, p, limit) == Ok(q)
    decreases q - p
  {
    hide WholeRecordAt;
    if p < q {
      ResyncFinds(file, p + 1, limit, q);
    }
  }

  lemma {:induction false} ResyncFindsNone(file: seq<Byte>, p: nat, limit: nat)
    requires limit <= |file|
    requires forall k | p <= k && k + RECORD_HEAD + HEADER_SIZE <= limit :: !WholeRecordAt(file, k)
    ensures Resync(file, p, limit).Err?
    decreases limit - p
  {
    hide WholeRecordAt;
    if p + RECORD_HEAD + HEADER_SIZE <= limit {
      ResyncFindsNone(file, p + 1, limit);
    }
  }

  /** No record can be read at `off`, and the next one starts at `q`, which is near enough to be searched for. */
  ghost predicate NextRecordAt(file: seq<Byte>, off: nat, q: nat) {
    && off + RECORD_HEAD + HEADER_SIZE <= |file| && !HeadersAgree(file, off)
    && off < q && q + RECORD_HEAD + HEADER_SIZE <= off + MAX_FRAME_LEN + RECORD_HEAD
    && WholeRecordAt(file, q) && forall p | off < p < q :: !WholeRecordAt(file, p)
  }

  /** Behind a damaged record the scan goes on at the next one; whether it is acknowledged does not matter. */
  lemma ScanResumes(seg: nat, file: seq<Byte>, off: nat, skip: nat, q: nat)
    requires NextRecordAt(file, off, q)
    ensures Scan(seg, file, off, skip) == Scan(seg, file, q, skip)
  {
    ResyncFinds(file, off + 1, SearchLimit(file, off), q);
    hide Resync, WholeRecordAt, Scan;
    ScanUnfold(seg, file, off, skip, Skip(q));
  }

  /** If there is none, the rest of the file is cut off, or the scan refuses to cut what is acknowledged. */
  lemma ScanGivesUp(seg: nat, file: seq<Byte>, off: nat, skip: nat)
    requires off + RECORD_HEAD + HEADER_SIZE <= |file| && !HeadersAgree(file, off)
    requires forall p | off < p && p + RECORD_HEAD + HEADER_SIZE <= off + MAX_FRAME_LEN + RECORD_HEAD ::
               !WholeRecordAt(file, p)
    ensures Scan(seg, file, off, skip) == if off < skip then Refused else Scanned([], file[..off])
  {
    hide WholeRecordAt;
    ResyncFindsNone(file, off + 1, SearchLimit(file, off));
    hide Resync, Scan;
    ScanUnfold(seg, file, off, skip, if off < skip then Refuse else Cut);
  }

  /** Whatever follows, whole records are indexed one by one. */
  lemma {:induction false} ScanBefore(seg: nat, pre: seq<Byte>, before: seq<FrameBytes>, tail: seq<Byte>, skip: nat)
    requires AllWellFormed(before)
    ensures var file, off := pre + Segment(before) + tail, |pre + Segment(before)|;
            Scan(seg, file, |pre|, skip) == Preceded(Unacked(seg, |pre|, before, skip), Scan(seg, file, off, skip))
    decreases |before|
  {
    hide WellFormed, Scan, Record, EntryAt;
    if before == [] {
      assert pre + Segment(before) == pre;
    } else {
      var f, rest := before[0], before[1..];
      SegmentCons(pre, before);
      assert pre + Segment(before) + tail == pre + Record(f) + (Segment(rest) + tail);
      ScanRecord(seg, pre, f, Segment(rest) + tail, skip);
      ScanBefore(seg, pre + Record(f), rest, tail, skip);
      assert pre + Segment(before) + tail == pre + Record(f) + Segment(rest) + tail;
    }
  }

  /** A damaged record in the middle of a segment costs that record only: those before and behind it are
      indexed, and the file stays as it is. */
  lemma MiddleLost(
    seg: nat, before: seq<FrameBytes>, damaged: seq<Byte>, after: seq<FrameBytes>, skip: nat)
    requires AllWellFormed(before) && AllWellFormed(after)
    requires var off := |Segment(before)|;
             NextRecordAt(Segment(before) + damaged + Segment(after), off, off + |damaged|)
    ensures var file, off := Segment(before) + damaged + Segment(after), |Segment(before)|;
            Scan(seg, file, 0, skip)
            == Scanned(Unacked(seg, 0, before, skip) + Unacked(seg, off + |damaged|, after, skip), file)
  {
    hide Segment, Scan, Unacked, AllWellFormed, NextRecordAt;
    var a := Segment(before);
    var file := a + damaged + Segment(after);
    assert [] + a == a && file == [] + a + (damaged + Segment(after));
    ScanBefore(seg, [], before, damaged + Segment(after), skip);
    ScanResumes(seg, file, |a|, skip, |a| + |damaged|);
    ScanExact(seg, a + damaged, after, [], skip);
    assert file + [] == file;
  }
}
