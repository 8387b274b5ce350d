/** The write-ahead log: byte framing, torn tails, reopening, and sequence numbers. */
module WriteAheadLog {
  import opened Wrappers
  import opened Bytes

  const WAL_MAGIC: bytes := [0x44, 0x57, 0x41, 0x4C]
  const WAL_VERSION: nat := 1
  const WAL_HEADER_SIZE: nat := 6

  datatype WalEntry = WalEntry(sequence: nat, payload: bytes)

  datatype WalError =
    | Io
    | InvalidMagic
    | UnsupportedVersion(version: nat)
    | TruncatedEntry
    | PayloadTooLarge(size: nat)

  // ----- Framing ----------------------------------------------------------------------------

  const U32_MAX: nat := 0xFFFF_FFFF

  /** An entry whose numbers fit their fields. */
  predicate Storable(e: WalEntry) {
    e.sequence <= U64_MAX && |e.payload| <= U32_MAX
  }

  function EncodeEntry(e: WalEntry): (b: bytes)
    ensures |b| == 12 + |e.payload|
  {
    LittleEndian(e.sequence, 8) + LittleEndian(|e.payload|, 4) + e.payload
  }

  function EncodeAll(es: seq<WalEntry>): bytes {
    if es == [] then [] else EncodeEntry(es[0]) + EncodeAll(es[1..])
  }

  /** Byte by byte: the number and the length of the payload, low bytes first, and then the payload. */
  lemma FrameBytes(e: WalEntry, k: nat)
    requires k < 12 + |e.payload|
    ensures EncodeEntry(e)[k] == if k < 8 then e.sequence / Pow256(k) % 256
                                 else if k < 12 then |e.payload| / Pow256(k - 8) % 256
                                 else e.payload[k - 12]
  {
    if k < 8 {
      LittleEndianAt(e.sequence, 8, k);
    } else if k < 12 {
      LittleEndianAt(|e.payload|, 4, k - 8);
    }
  }

  /** What the reader makes of the bytes after the header. */
  function Parse(b: bytes): Result<seq<WalEntry>, WalError> {
    if |b| < 8 then Ok([])
    else if |b| < 12 then Err(TruncatedEntry)
    else
      var len := FromLittleEndian(b[8..12]);
      if |b| < 12 + len then Err(TruncatedEntry)
      else
        After([WalEntry(FromLittleEndian(b[..8]), b[12..12 + len])], Parse(b[12 + len..]))
  }

  /** Entries read before the rest of the log was. */
  function After(es: seq<WalEntry>, rest: Result<seq<WalEntry>, WalError>): Result<seq<WalEntry>, WalError> {
    match rest
    case Err(e) => Err(e)
    case Ok(more) => Ok(es + more)
  }

  lemma {:induction false} FieldWidths()
    ensures Pow256(8) == U64_MAX + 1 && Pow256(4) == U32_MAX + 1
  {
    assert Pow256(4) == 256 * (256 * (256 * (256 * Pow256(0))));
    assert Pow256(8) == 256 * (256 * (256 * (256 * Pow256(4))));
  }

  /** The reader takes a whole entry off the front. */
  lemma ParseEntry(e: WalEntry, tail: bytes)
    requires Storable(e)
    ensures Parse(EncodeEntry(e) + tail) == After([e], Parse(tail))
  {
    var b := EncodeEntry(e) + tail;
    FieldWidths();
    LittleEndianRoundTrip(e.sequence, 8);
    LittleEndianRoundTrip(|e.payload|, 4);
    assert b[..8] == LittleEndian(e.sequence, 8);
    assert b[8..12] == LittleEndian(|e.payload|, 4);
    assert b[12..12 + |e.payload|] == e.payload;
    assert b[12 + |e.payload|..] == tail;
  }

  ghost predicate AllStorable(es: seq<WalEntry>) {
    forall i :: 0 <= i < |es| ==> Storable(es[i])
  }

  /** Parsing inverts appending, whatever comes after. */
  lemma {:induction false} ParseLog(es: seq<WalEntry>, tail: bytes)
    requires AllStorable(es)
    ensures Parse(EncodeAll(es) + tail) == After(es, Parse(tail))
    decreases |es|
  {
    if es == [] {
      assert EncodeAll(es) + tail == tail;
      AfterNothing(Parse(tail));
    } else {
      var rest := EncodeAll(es[1..]) + tail;
      assert EncodeAll(es) + tail == EncodeEntry(es[0]) + rest;
      ParseEntry(es[0], rest);
      ParseLog(es[1..], tail);
      AfterTwice([es[0]], es[1..], Parse(tail));
      assert [es[0]] + es[1..] == es;
    }
  }

  /** How many entries lie wholly inside the first `cut` bytes. */
  function WholeEntries(es: seq<WalEntry>, cut: nat): (n: nat)
    ensures n <= |es|
    ensures |EncodeAll(es[..n])| <= cut
  {
    if es == [] || |EncodeEntry(es[0])| > cut then 0
    else
      var n := 1 + WholeEntries(es[1..], cut - |EncodeEntry(es[0])|);
      assert es[..n][1..] == es[1..][..n - 1];
      n
  }

  lemma {:induction false} WholeAtLeast(es: seq<WalEntry>, m: nat, cut: nat)
    requires m <= |es| && |EncodeAll(es[..m])| <= cut
    ensures m <= WholeEntries(es, cut)
    decreases m
  {
    if m == 0 {
    } else {
      assert es[..m][0] == es[0] && es[..m][1..] == es[1..][..m - 1];
      WholeAtLeast(es[1..], m - 1, cut - |EncodeEntry(es[0])|);
    }
  }

  /** A cut between entries leaves the ones before it whole, and nothing over. */
  lemma {:induction false} WholeAt(es: seq<WalEntry>, m: nat)
    requires m <= |es|
    ensures WholeEntries(es, |EncodeAll(es[..m])|) == m
    decreases m
  {
    if m == 0 {
      assert es[..0] == [];
    } else {
      assert es[..m][0] == es[0] && es[..m][1..] == es[1..][..m - 1];
      WholeAt(es[1..], m - 1);
    }
  }

  /**
   A log cut anywhere: the reader returns exactly the entries wholly inside the cut when fewer than
   eight bytes are left over, and reports a truncated entry otherwise.
   */
  lemma {:induction false} CutLog(es: seq<WalEntry>, cut: nat)
    requires AllStorable(es) && cut <= |EncodeAll(es)|
    ensures Parse(EncodeAll(es)[..cut]) == CutResult(es, cut)
    decreases |es|
  {
    if es == [] {
    } else {
      var e := es[0];
      var size := |EncodeEntry(e)|;
      if size > cut {
        assert EncodeAll(es)[..cut] == EncodeEntry(e)[..cut];
        CutEntry(e, cut);
      } else {
        assert EncodeAll(es)[..cut] == EncodeEntry(e) + EncodeAll(es[1..])[..cut - size];
        ParseEntry(e, EncodeAll(es[1..])[..cut - size]);
        CutLog(es[1..], cut - size);
        CutResultStep(es, cut);
      }
    }
  }

  function CutResult(es: seq<WalEntry>, cut: nat): Result<seq<WalEntry>, WalError> {
    var n := WholeEntries(es, cut);
    if cut - |EncodeAll(es[..n])| < 8 then Ok(es[..n]) else Err(TruncatedEntry)
  }

  lemma CutResultStep(es: seq<WalEntry>, cut: nat)
    requires es != [] && |EncodeEntry(es[0])| <= cut
    ensures CutResult(es, cut) == After([es[0]], CutResult(es[1..], cut - |EncodeEntry(es[0])|))
  {
    var m := WholeEntries(es[1..], cut - |EncodeEntry(es[0])|);
    assert es[..m + 1][1..] == es[1..][..m];
    assert es[..m + 1] == [es[0]] + es[1..][..m];
  }

  lemma CutEntry(e: WalEntry, cut: nat)
    requires Storable(e) && cut < |EncodeEntry(e)|
    ensures Parse(EncodeEntry(e)[..cut]) == if cut < 8 then Ok([]) else Err(TruncatedEntry)
  {
    if cut >= 12 {
      var b := EncodeEntry(e)[..cut];
      FieldWidths();
      LittleEndianRoundTrip(|e.payload|, 4);
      assert b[8..12] == LittleEndian(|e.payload|, 4);
    }
  }

  /**
   The reader, from the other side: it answers with entries iff their frames and up to seven bytes
   are all there is.
   */
  lemma ParseIff(b: bytes, es: seq<WalEntry>)
    ensures Parse(b) == Ok(es) <==> Framed(b, es)
  {
    if Framed(b, es) {
      var tail := b[|EncodeAll(es)|..];
      assert b == EncodeAll(es) + tail;
      ParseLog(es, tail);
      assert es + [] == es;
    }
    if Parse(b) == Ok(es) {
      ReadIsFramed(b, es);
    }
  }

  ghost predicate Framed(b: bytes, es: seq<WalEntry>) {
    AllStorable(es) && EncodeAll(es) <= b && |b| - |EncodeAll(es)| < 8
  }

  lemma {:induction false} ReadIsFramed(b: bytes, es: seq<WalEntry>)
    requires Parse(b) == Ok(es)
    ensures Framed(b, es)
    decreases |b|
  {
    if |b| < 8 {
      assert es == [];
    } else {
      ReadFrame(b);
      var size := |EncodeEntry(es[0])|;
      ReadIsFramed(b[size..], es[1..]);
      FramedStep(b, es);
    }
  }

  lemma FramedStep(b: bytes, es: seq<WalEntry>)
    requires es != [] && Storable(es[0]) && EncodeEntry(es[0]) <= b
    requires Framed(b[|EncodeEntry(es[0])|..], es[1..])
    ensures Framed(b, es)
  {
    assert b == EncodeEntry(es[0]) + b[|EncodeEntry(es[0])|..];
    assert forall i :: 1 <= i < |es| ==> es[i] == es[1..][i - 1];
  }

  /** An entry that was read is framed at the front, and the rest was read after it. */
  lemma ReadFrame(b: bytes)
    requires |b| >= 8 && Parse(b).Ok?
    ensures Parse(b).value != []
    ensures var e := Parse(b).value[0];
            && Storable(e) && 0 < |EncodeEntry(e)| && EncodeEntry(e) <= b
            && Parse(b[|EncodeEntry(e)|..]) == Ok(Parse(b).value[1..])
  {
    var e := Parse(b).value[0];
    var len := FromLittleEndian(b[8..12]);
    FieldWidths();
    FromLittleEndianInverse(b[..8]);
    FromLittleEndianInverse(b[8..12]);
    assert e == WalEntry(FromLittleEndian(b[..8]), b[12..12 + len]);
    FrontInThree(b, 8, 12, 12 + len);
    assert ([e] + Parse(b[12 + len..]).value)[1..] == Parse(b[12 + len..]).value;
  }

  lemma FrontInThree(b: bytes, i: nat, j: nat, k: nat)
    requires i <= j <= k <= |b|
    ensures b[..i] + b[i..j] + b[j..k] == b[..k]
  {
  }

  /** Entries appended after stray bytes are read back iff the stray bytes merely shift them onto themselves. */
  lemma ReadBackIff(stray: bytes, es: seq<WalEntry>)
    requires |stray| < 8 && AllStorable(es)
    ensures Parse(stray + EncodeAll(es)) == Ok(es) <==> EncodeAll(es) <= stray + EncodeAll(es)
  {
    ParseIff(stray + EncodeAll(es), es);
  }

  /** That never happens to an entry whose sequence number leaves the shifted-out bytes zero. */
  lemma StrayBytesShift(stray: bytes, es: seq<WalEntry>)
    requires AllStorable(es) && 0 < |stray| < 8 && es != [] && 1 <= es[0].sequence < Pow256(8 - |stray|)
    ensures !(EncodeAll(es) <= stray + EncodeAll(es))
  {
    FirstField(es);
    NotShiftedOntoItself(EncodeAll(es), stray);
  }

  lemma NotShiftedOntoItself(all: bytes, stray: bytes)
    requires 0 < |stray| < 8 <= |all| && 1 <= FromLittleEndian(all[..8]) < Pow256(8 - |stray|)
    ensures !(all <= stray + all)
  {
    assert all == all[..8] + all[8..];
    NotItsOwnShift(all[..8], all[8..], stray);
  }

  lemma FirstField(es: seq<WalEntry>)
    requires AllStorable(es) && es != []
    ensures |EncodeAll(es)| >= 8 && FromLittleEndian(EncodeAll(es)[..8]) == es[0].sequence
  {
    assert EncodeAll(es)[..8] == EncodeEntry(es[0])[..8] == LittleEndian(es[0].sequence, 8);
    FieldWidths();
    LittleEndianRoundTrip(es[0].sequence, 8);
  }

  /** A field that is its own shift, with zeros shifted out, is zero. */
  lemma NotItsOwnShift(field: bytes, rest: bytes, stray: bytes)
    requires 0 < |stray| < |field| && 1 <= FromLittleEndian(field) < Pow256(|field| - |stray|)
    ensures !(field + rest <= stray + (field + rest))
  {
    var whole := field + rest;
    if whole <= stray + whole {
      forall i | |stray| <= i < |field| ensures field[i] == field[i - |stray|] {
        ShiftedAt(field, rest, stray, i);
      }
      HighBytesZero(field, |field| - |stray|);
      ShiftedDown(field, stray, |field| - |stray|);
      ZeroBytes(field);
    }
  }

  lemma ShiftedAt(field: bytes, rest: bytes, stray: bytes, i: nat)
    requires |stray| <= i < |field| && field + rest <= stray + (field + rest)
    ensures field[i] == field[i - |stray|]
  {
    var whole := field + rest;
    assert field[i] == whole[i] == (stray + whole)[i] == whole[i - |stray|] == field[i - |stray|];
  }

  lemma {:induction false} ShiftedDown(field: bytes, stray: bytes, from: nat)
    requires 0 < |stray| && from + |stray| <= |field|
    requires forall i :: |stray| <= i < |field| ==> field[i] == field[i - |stray|]
    requires forall i :: from <= i < |field| ==> field[i] == 0
    ensures forall i :: 0 <= i < |field| ==> field[i] == 0
  {
    if from == 0 {
    } else {
      assert field[from - 1 + |stray|] == field[from - 1];
      ShiftedDown(field, stray, from - 1);
    }
  }

  lemma {:induction false} SmallerPower(m: nat, n: nat)
    requires m <= n
    ensures Pow256(m) <= Pow256(n)
  {
    if m == n {
    } else {
      SmallerPower(m, n - 1);
    }
  }

  /**
   Up to seven stray bytes are accepted at the end of a log. Whatever is appended after them is read
   back iff there are none.
   */
  lemma AppendAfterStrayBytesIff(stray: bytes)
    requires |stray| < 8
    ensures Parse(stray) == Ok([])
    ensures (forall es :: AllStorable(es) ==> Parse(stray + EncodeAll(es)) == Ok(es)) <==> stray == []
  {
    if stray == [] {
      forall es | AllStorable(es) ensures Parse(stray + EncodeAll(es)) == Ok(es) {
        ReadBackIff(stray, es);
        assert stray + EncodeAll(es) == EncodeAll(es);
      }
    } else {
      var es := [WalEntry(1, [])];
      SmallerPower(1, 8 - |stray|);
      assert Pow256(1) == 256 * Pow256(0);
      StrayBytesShift(stray, es);
      ReadBackIff(stray, es);
    }
  }

  // ----- The log as a state -----------------------------------------------------------------

  /** The file, the next sequence number, and the number in the side file that survives truncation. */
  datatype Log = Log(file: bytes, next: nat, hint: Option<nat>)

  const HEADER: bytes := WAL_MAGIC + LittleEndian(WAL_VERSION, 2)

  function LastSequence(es: seq<WalEntry>): nat {
    if es == [] then 0 else es[|es| - 1].sequence
  }

  /** What opening makes of a non-empty file: the sequence number after the last entry. */
  function Scan(file: bytes): Result<nat, WalError> {
    if |file| < 4 then Err(Io)
    else if file[..4] != WAL_MAGIC then Err(InvalidMagic)
    else if |file| < 6 then Err(Io)
    else if FromLittleEndian(file[4..6]) != WAL_VERSION then Err(UnsupportedVersion(FromLittleEndian(file[4..6])))
    else
      match Parse(file[6..])
      case Err(e) => Err(e)
      case Ok(es) => Ok(LastSequence(es) + 1)
  }

  function Open(file: bytes, hint: Option<nat>): Result<Log, WalError> {
    var hinted := if hint.Some? then hint.value else 1;
    if file == [] then Ok(Log(HEADER, Max(1, hinted), hint))
    else
      match Scan(file)
      case Err(e) => Err(e)
      case Ok(next) => Ok(Log(file, Max(next, hinted), hint))
  }

  function Append(l: Log, payload: bytes): (Log, Result<nat, WalError>) {
    if |payload| > U32_MAX then (l, Err(PayloadTooLarge(|payload|)))
    else (l.(file := l.file + EncodeEntry(WalEntry(l.next, payload)), next := l.next + 1), Ok(l.next))
  }

  function Truncate(l: Log): Log {
    var keep := Max(l.next, 1);
    Log(HEADER, keep, Some(keep))
  }

  ghost predicate Increasing(es: seq<WalEntry>) {
    forall i, j :: 0 <= i < j < |es| ==> es[i].sequence < es[j].sequence
  }

  function NextAfter(es: seq<WalEntry>, hint: Option<nat>): nat {
    Max(LastSequence(es) + 1, if hint.Some? then hint.value else 1)
  }

  /** The file holds exactly these entries, and the counter is what reopening would find. */
  ghost predicate Holds(l: Log, es: seq<WalEntry>) {
    && AllStorable(es)
    && l.file == HEADER + EncodeAll(es)
    && Increasing(es)
    && l.next == NextAfter(es, l.hint)
  }

  lemma HoldsIsRead(l: Log, es: seq<WalEntry>)
    requires Holds(l, es)
    ensures |l.file| >= 6 && Parse(l.file[6..]) == Ok(es)
    ensures Open(l.file, l.hint) == Ok(l)
  {
    assert l.file[..4] == WAL_MAGIC && l.file[4..6] == LittleEndian(WAL_VERSION, 2);
    assert l.file[6..] == EncodeAll(es) + [];
    assert es + [] == es;
    ParseLog(es, []);
    assert FromLittleEndian(LittleEndian(WAL_VERSION, 2)) == WAL_VERSION by {
      LittleEndianRoundTrip(1, 2);
    }
  }

  lemma {:induction false} EncodeAllSnoc(es: seq<WalEntry>, e: WalEntry)
    ensures EncodeAll(es + [e]) == EncodeAll(es) + EncodeEntry(e)
    decreases |es|
  {
    if es == [] {
      assert es + [e] == [e] && [e][1..] == [];
    } else {
      assert (es + [e])[1..] == es[1..] + [e];
      EncodeAllSnoc(es[1..], e);
    }
  }

  /** A fresh log, or one reopened after truncation, holds nothing. */
  lemma OpenFreshHolds(hint: Option<nat>)
    ensures Holds(Open([], hint).value, [])
  {
  }

  lemma AppendHolds(l: Log, es: seq<WalEntry>, payload: bytes)
    requires Holds(l, es) && l.next <= U64_MAX && |payload| <= U32_MAX
    ensures Holds(Append(l, payload).0, es + [WalEntry(l.next, payload)])
  {
    var e := WalEntry(l.next, payload);
    EncodeAllSnoc(es, e);
    IncreasingSnoc(es, e);
    assert HEADER + EncodeAll(es) + EncodeEntry(e) == HEADER + EncodeAll(es + [e]);
    assert LastSequence(es + [e]) == l.next;
  }

  lemma IncreasingSnoc(es: seq<WalEntry>, e: WalEntry)
    requires Increasing(es) && LastSequence(es) < e.sequence
    ensures Increasing(es + [e])
  {
  }

  lemma TruncateHolds(l: Log, es: seq<WalEntry>)
    requires Holds(l, es)
    ensures Holds(Truncate(l), []) && Truncate(l).next == l.next
  {
  }

  // ----- Cut and torn files -----------------------------------------------------------------

  lemma ScanBody(file: bytes)
    ensures Scan(file).Ok? ==> HEADER <= file && Parse(file[6..]).Ok?
    ensures HEADER <= file ==>
              Scan(file) == match Parse(file[6..]) case Err(e) => Err(e) case Ok(es) => Ok(LastSequence(es) + 1)
  {
    LittleEndianRoundTrip(WAL_VERSION, 2);
    if HEADER <= file {
      assert file[..4] == HEADER[..4] == WAL_MAGIC;
      assert file[4..6] == HEADER[4..6] == LittleEndian(WAL_VERSION, 2);
    }
    if Scan(file).Ok? {
      FromLittleEndianInverse(file[4..6]);
      assert file[..6] == file[..4] + file[4..6];
    }
  }

  /**
   A log file cut anywhere after its header, as a crash inside an append leaves it, is refused as
   truncated, or opens and reads as exactly the entries wholly inside the cut.
   */
  lemma CutOpens(file: bytes, hint: Option<nat>, es: seq<WalEntry>, cut: nat)
    requires AllStorable(es) && file == HEADER + EncodeAll(es) && WAL_HEADER_SIZE <= cut <= |file|
    ensures var n := WholeEntries(es, cut - WAL_HEADER_SIZE);
            var reopened := Open(file[..cut], hint);
            if cut - WAL_HEADER_SIZE - |EncodeAll(es[..n])| < 8
            then
              && reopened.Ok? && reopened.value.file == file[..cut]
              && Parse(file[WAL_HEADER_SIZE..cut]) == Ok(es[..n])
            else reopened == Err(TruncatedEntry)
  {
    var n := cut - WAL_HEADER_SIZE;
    CutLog(es, n);
    assert file[..cut] == HEADER + EncodeAll(es)[..n];
    assert file[..cut][6..] == EncodeAll(es)[..n] == file[6..cut];
    ScanBody(file[..cut]);
  }

  /** The file holds these entries, with stray bytes in front of the last of them. */
  ghost predicate Written(l: Log, es: seq<WalEntry>, at: nat, stray: bytes) {
    && at <= |es| && |stray| < 8 && AllStorable(es)
    && l.file == HEADER + EncodeAll(es[..at]) + stray + EncodeAll(es[at..])
    && l.next == NextAfter(es, l.hint)
  }

  /** Every file that opens is one: what was read, and up to seven stray bytes. */
  lemma OpenedIsWritten(file: bytes, hint: Option<nat>) returns (es: seq<WalEntry>, stray: bytes)
    requires Open(file, hint).Ok?
    ensures Written(Open(file, hint).value, es, |es|, stray)
    ensures file != [] ==> |file| >= WAL_HEADER_SIZE && Parse(file[WAL_HEADER_SIZE..]) == Ok(es)
    ensures file == [] ==> es == [] && stray == []
  {
    if file == [] {
      es, stray := [], [];
    } else {
      ScanBody(file);
      es := Parse(file[6..]).value;
      ParseIff(file[6..], es);
      stray := file[6..][|EncodeAll(es)|..];
      assert file == HEADER + EncodeAll(es) + stray;
    }
    assert es[..|es|] == es && es[|es|..] == [];
  }

  /** The file is the header, frames, and up to seven bytes more. */
  ghost predicate Openable(file: bytes, es: seq<WalEntry>, stray: bytes) {
    AllStorable(es) && |stray| < 8 && file == HEADER + EncodeAll(es) + stray
  }

  /** A file opens iff it is empty or such a file. */
  lemma OpensIff(file: bytes, hint: Option<nat>)
    ensures Open(file, hint).Ok? <==> file == [] || exists es, stray :: Openable(file, es, stray)
  {
    if Open(file, hint).Ok? && file != [] {
      var es, stray := OpenedIsWritten(file, hint);
      assert es[..|es|] == es && es[|es|..] == [];
      assert Openable(file, es, stray);
    }
    if es, stray :| Openable(file, es, stray) {
      ScanBody(file);
      assert file[6..] == EncodeAll(es) + stray;
      ParseLog(es, stray);
    }
  }

  /** Why it does not: too short for its header, another magic, another version, or a torn entry. */
  lemma OpenRefusals(file: bytes, hint: Option<nat>, e: WalError)
    requires Open(file, hint) == Err(e)
    ensures HEADER == [0x44, 0x57, 0x41, 0x4C, 1, 0]
    ensures e == Io <==> |file| < 4 || (|file| < 6 && file[..4] == HEADER[..4])
    ensures e == InvalidMagic <==> |file| >= 4 && file[..4] != HEADER[..4]
    ensures e.UnsupportedVersion? <==> |file| >= 6 && file[..4] == HEADER[..4] && file[4..6] != HEADER[4..6]
    ensures e.UnsupportedVersion? ==> e.version == file[4] as int + 256 * file[5] as int
    ensures e == TruncatedEntry <==> HEADER <= file
  {
    HeaderBytes();
    ScanBody(file);
    if |file| >= 6 {
      VersionBytes(file[4..6]);
    }
    if HEADER <= file {
      assert file[..4] == HEADER[..4] && file[4..6] == HEADER[4..6];
      ParseErrors(file[6..]);
    }
  }

  lemma HeaderBytes()
    ensures HEADER == [0x44, 0x57, 0x41, 0x4C, 1, 0]
  {
    assert LittleEndian(1, 2) == [1] + LittleEndian(0, 1) && LittleEndian(0, 1) == [0] + LittleEndian(0, 0);
  }

  lemma VersionBytes(b: bytes)
    requires |b| == 2
    ensures FromLittleEndian(b) == b[0] as int + 256 * b[1] as int
    ensures FromLittleEndian(b) == WAL_VERSION <==> b == [1, 0]
  {
    assert b[1..][1..] == [] && FromLittleEndian([]) == 0;
    assert FromLittleEndian(b[1..]) == b[1];
  }

  /** The reader knows one error. */
  lemma {:induction false} ParseErrors(b: bytes)
    ensures Parse(b).Err? ==> Parse(b).error == TruncatedEntry
  {
    if |b| >= 12 {
      var len := FromLittleEndian(b[8..12]);
      if |b| >= 12 + len {
        ParseErrors(b[12 + len..]);
      }
    }
  }

  lemma OpenedReads(file: bytes, hint: Option<nat>, es: seq<WalEntry>, stray: bytes)
    requires Open(file, hint).Ok? && Written(Open(file, hint).value, es, |es|, stray)
    ensures var opened_ := Open(file, hint).value.file;
            |opened_| >= WAL_HEADER_SIZE && Parse(opened_[WAL_HEADER_SIZE..]) == Ok(es)
  {
    ShiftCases(es, |es|, stray);
    WrittenReadsBackIff(Open(file, hint).value, es, |es|, stray);
  }

  lemma AppendWritten(l: Log, es: seq<WalEntry>, at: nat, stray: bytes, payload: bytes)
    requires Written(l, es, at, stray) && l.next <= U64_MAX && |payload| <= U32_MAX
    ensures Written(Append(l, payload).0, es + [WalEntry(l.next, payload)], at, stray)
  {
    var e := WalEntry(l.next, payload);
    LaterSnoc(es, at, e);
    EncodeAllSnoc(es[at..], e);
    Regroup(HEADER + EncodeAll(es[..at]) + stray, EncodeAll(es[at..]), EncodeEntry(e));
    assert LastSequence(es + [e]) == l.next;
  }

  lemma LaterSnoc(es: seq<WalEntry>, at: nat, e: WalEntry)
    requires at <= |es|
    ensures (es + [e])[..at] == es[..at] && (es + [e])[at..] == es[at..] + [e]
  {
  }

  lemma BodyOf(header: bytes, a: bytes, b: bytes, c: bytes)
    ensures (header + a + b + c)[|header|..] == a + (b + c)
  {
  }

  /** Such a file reads as the entries before the stray bytes, and whatever is made of the rest. */
  lemma WrittenReads(l: Log, es: seq<WalEntry>, at: nat, stray: bytes)
    requires Written(l, es, at, stray)
    ensures |l.file| >= WAL_HEADER_SIZE
    ensures Parse(l.file[WAL_HEADER_SIZE..]) == After(es[..at], Parse(stray + EncodeAll(es[at..])))
  {
    var tail := stray + EncodeAll(es[at..]);
    BodyOf(HEADER, EncodeAll(es[..at]), stray, EncodeAll(es[at..]));
    ParseLog(es[..at], tail);
  }

  /**
   It reads back as all the entries iff the stray bytes merely shift the later ones onto themselves:
   by `ShiftCases` always when nothing was appended after them or there are none, and never when the
   first entry after them has a sequence number below 256 to the power of eight less their count.
   */
  lemma WrittenReadsBackIff(l: Log, es: seq<WalEntry>, at: nat, stray: bytes)
    requires Written(l, es, at, stray)
    ensures |l.file| >= WAL_HEADER_SIZE
    ensures Parse(l.file[WAL_HEADER_SIZE..]) == Ok(es) <==> EncodeAll(es[at..]) <= stray + EncodeAll(es[at..])
  {
    var later := es[at..];
    assert es == es[..at] + later;
    SameRest(es[..at], later, Parse(stray + EncodeAll(later)));
    WrittenReads(l, es, at, stray);
    ReadBackIff(stray, later);
  }

  /** Without stray bytes the file is the framed entries. */
  lemma {:induction false} WrittenWhole(l: Log, es: seq<WalEntry>, at: nat)
    requires Written(l, es, at, [])
    ensures l.file == HEADER + EncodeAll(es)
    decreases |es| - at
  {
    if at == |es| {
      assert es[..at] == es && es[at..] == [];
    } else {
      assert es[..at + 1] == es[..at] + [es[at]] && es[at..][1..] == es[at + 1..];
      EncodeAllSnoc(es[..at], es[at]);
      assert HEADER + EncodeAll(es[..at]) + [] + (EncodeEntry(es[at]) + EncodeAll(es[at + 1..]))
          == HEADER + (EncodeAll(es[..at]) + EncodeEntry(es[at])) + [] + EncodeAll(es[at + 1..]);
      WrittenWhole(l, es, at + 1);
    }
  }

  /** A log that reads back opens as it was. */
  lemma ReadBackReopens(l: Log, es: seq<WalEntry>, at: nat, stray: bytes)
    requires Written(l, es, at, stray) && |l.file| >= WAL_HEADER_SIZE && Parse(l.file[WAL_HEADER_SIZE..]) == Ok(es)
    ensures Open(l.file, l.hint) == Ok(l)
  {
    assert HEADER <= l.file;
    ScanBody(l.file);
  }

  lemma ShiftCases(es: seq<WalEntry>, at: nat, stray: bytes)
    requires AllStorable(es) && at <= |es| && |stray| < 8
    ensures stray == [] || at == |es| ==> EncodeAll(es[at..]) <= stray + EncodeAll(es[at..])
    ensures stray != [] && at < |es| && 1 <= es[at].sequence < Pow256(8 - |stray|) ==>
              !(EncodeAll(es[at..]) <= stray + EncodeAll(es[at..]))
  {
    assert stray == [] ==> stray + EncodeAll(es[at..]) == EncodeAll(es[at..]);
    assert at == |es| ==> es[at..] == [];
    if stray != [] && at < |es| && 1 <= es[at].sequence < Pow256(8 - |stray|) {
      StrayBytesShift(stray, es[at..]);
    }
  }

  lemma SameRest(front: seq<WalEntry>, later: seq<WalEntry>, rest: Result<seq<WalEntry>, WalError>)
    ensures After(front, rest) == Ok(front + later) <==> rest == Ok(later)
  {
    if rest.Ok? && front + rest.value == front + later {
      assert rest.value == (front + rest.value)[|front|..] == later;
    }
  }

  // ----- Runs -------------------------------------------------------------------------------

  datatype LogStep = AppendStep(payload: bytes) | TruncateStep | ReopenStep

  /** The log, what it holds, and every sequence number handed out so far. */
  datatype LogWorld = LogWorld(log: Log, entries: seq<WalEntry>, issued: seq<nat>)

  const FRESH := LogWorld(Open([], None).value, [], [])

  /** Reopening reads the files as they are; a file it refuses leaves the world as it was. */
  function NextLog(w: LogWorld, s: LogStep): LogWorld {
    match s
    case AppendStep(payload) =>
      var (log, r) := Append(w.log, payload);
      if r.Ok? then LogWorld(log, w.entries + [WalEntry(r.value, payload)], w.issued + [r.value]) else w
    case TruncateStep => LogWorld(Truncate(w.log), [], w.issued)
    case ReopenStep =>
      var r := Open(w.log.file, w.log.hint);
      if r.Ok? then w.(log := r.value) else w
  }

  function RunLog(steps: seq<LogStep>): LogWorld {
    if steps == [] then FRESH else NextLog(RunLog(steps[..|steps| - 1]), steps[|steps| - 1])
  }

  ghost predicate LogInv(w: LogWorld) {
    && Holds(w.log, w.entries)
    && (forall i, j :: 0 <= i < j < |w.issued| ==> w.issued[i] < w.issued[j])
    && (forall i :: 0 <= i < |w.issued| ==> w.issued[i] < w.log.next)
  }

  lemma NextLogKeepsInv(w: LogWorld, s: LogStep)
    requires LogInv(w) && w.log.next <= U64_MAX
    ensures LogInv(NextLog(w, s)) && NextLog(w, s).log.next <= w.log.next + 1
  {
    match s
    case AppendStep(payload) =>
      if |payload| <= U32_MAX {
        AppendHolds(w.log, w.entries, payload);
      }
    case TruncateStep => TruncateHolds(w.log, w.entries);
    case ReopenStep => HoldsIsRead(w.log, w.entries);
  }

  lemma {:induction false} RunLogKeepsInv(steps: seq<LogStep>)
    requires |steps| <= U64_MAX
    ensures LogInv(RunLog(steps)) && RunLog(steps).log.next <= |steps| + 1
  {
    if steps == [] {
      OpenFreshHolds(None);
    } else {
      RunLogKeepsInv(steps[..|steps| - 1]);
      NextLogKeepsInv(RunLog(steps[..|steps| - 1]), steps[|steps| - 1]);
    }
  }

  /**
   In every run the numbers handed out are 1, 2, 3 and so on, across truncations and reopenings, and the
   next one is one more.
   */
  lemma {:induction false} NumbersCount(steps: seq<LogStep>)
    requires |steps| <= U64_MAX
    ensures var w := RunLog(steps);
            w.log.next == |w.issued| + 1 && forall k :: 0 <= k < |w.issued| ==> w.issued[k] == k + 1
  {
    if steps == [] {
    } else {
      var front := steps[..|steps| - 1];
      NumbersCount(front);
      RunLogKeepsInv(front);
      HoldsIsRead(RunLog(front).log, RunLog(front).entries);
    }
  }

  /**
   Over every run of appends, truncations and reopens, every number handed out is greater than all
   before it, the file is read back as exactly what was appended since the last truncation, and
   reopening finds the log as it was.
   */
  lemma SequencesIncrease(steps: seq<LogStep>)
    requires |steps| <= U64_MAX
    ensures var w := RunLog(steps);
            && (forall i, j :: 0 <= i < j < |w.issued| ==> w.issued[i] < w.issued[j])
            && |w.log.file| >= 6 && Parse(w.log.file[6..]) == Ok(w.entries)
            && Open(w.log.file, w.log.hint) == Ok(w.log)
  {
    RunLogKeepsInv(steps);
    HoldsIsRead(RunLog(steps).log, RunLog(steps).entries);
  }

  // ----- The log as the engine runs it ------------------------------------------------------

  /** The scanning loop of opening, and of reading all entries. */
  method ReadEntries(file: bytes) returns (r: Result<seq<WalEntry>, WalError>)
    requires |file| >= WAL_HEADER_SIZE
    ensures r == Parse(file[WAL_HEADER_SIZE..])
  {
    var pos := WAL_HEADER_SIZE;
    var entries := [];
    AfterNothing(Parse(file[pos..]));
    while true
      invariant WAL_HEADER_SIZE <= pos <= |file|
      invariant Parse(file[WAL_HEADER_SIZE..]) == After(entries, Parse(file[pos..]))
      decreases |file| - pos
    {
      if |file| - pos < 8 {
        assert entries + [] == entries;
        return Ok(entries);
      }
      if |file| - pos < 12 {
        return Err(TruncatedEntry);
      }
      var len := FromLittleEndian(file[pos + 8..pos + 12]);
      ParseAt(file, pos);
      if |file| - pos < 12 + len {
        return Err(TruncatedEntry);
      }
      var e := WalEntry(FromLittleEndian(file[pos..pos + 8]), file[pos + 12..pos + 12 + len]);
      AfterTwice(entries, [e], Parse(file[pos + 12 + len..]));
      entries := entries + [e];
      pos := pos + 12 + len;
    }
  }

  /** One turn of the reader, in terms of the whole file. */
  lemma ParseAt(file: bytes, pos: nat)
    requires pos + 12 <= |file|
    ensures var len := FromLittleEndian(file[pos + 8..pos + 12]);
            Parse(file[pos..]) ==
            if |file| - pos < 12 + len then Err(TruncatedEntry)
            else After([WalEntry(FromLittleEndian(file[pos..pos + 8]), file[pos + 12..pos + 12 + len])],
                       Parse(file[pos + 12 + len..]))
  {
    var rest := file[pos..];
    assert rest[8..12] == file[pos + 8..pos + 12];
    var len := FromLittleEndian(rest[8..12]);
    if 12 + len <= |rest| {
      assert rest[..8] == file[pos..pos + 8];
      assert rest[12..12 + len] == file[pos + 12..pos + 12 + len];
      assert rest[12 + len..] == file[pos + 12 + len..];
    }
  }

  lemma AfterNothing(rest: Result<seq<WalEntry>, WalError>)
    ensures After([], rest) == rest
  {
    if rest.Ok? {
      assert [] + rest.value == rest.value;
    }
  }

  lemma AfterTwice(a: seq<WalEntry>, b: seq<WalEntry>, rest: Result<seq<WalEntry>, WalError>)
    ensures After(a, After(b, rest)) == After(a + b, rest)
  {
    if rest.Ok? {
      Regroup(a, b, rest.value);
    }
  }

  class Wal {
    var file: bytes
    var nextSequence: nat
    var hint: Option<nat>

    ghost function Model(): Log
      reads this
    {
      Log(file, nextSequence, hint)
    }

    constructor (file: bytes, nextSequence: nat, hint: Option<nat>)
      ensures Model() == Log(file, nextSequence, hint)
    {
      this.file, this.nextSequence, this.hint := file, nextSequence, hint;
    }

    static method OpenOrCreate(file: bytes, hint: Option<nat>) returns (r: Result<Wal, WalError>)
      ensures r.Ok? <==> Open(file, hint).Ok?
      ensures r.Ok? ==> fresh(r.value) && r.value.Model() == Open(file, hint).value
      ensures r.Err? ==> r.error == Open(file, hint).error
    {
      var hinted := if hint.Some? then hint.value else 1;
      var wal;
      if file == [] {
        wal := new Wal(HEADER, Max(1, hinted), hint);
        return Ok(wal);
      }
      if |file| < 4 {
        return Err(Io);
      }
      if file[..4] != WAL_MAGIC {
        return Err(InvalidMagic);
      }
      if |file| < 6 {
        return Err(Io);
      }
      var version := FromLittleEndian(file[4..6]);
      if version != WAL_VERSION {
        return Err(UnsupportedVersion(version));
      }
      var entries := ReadEntries(file);
      if entries.Err? {
        return Err(entries.error);
      }
      wal := new Wal(file, Max(LastSequence(entries.value) + 1, hinted), hint);
      return Ok(wal);
    }

    method AppendPayload(payload: bytes) returns (r: Result<nat, WalError>)
      modifies this
      ensures (Model(), r) == Append(old(Model()), payload)
    {
      if |payload| > U32_MAX {
        return Err(PayloadTooLarge(|payload|));
      }
      var sequence := nextSequence;
      file := file + LittleEndian(sequence, 8);
      file := file + LittleEndian(|payload|, 4);
      file := file + payload;
      assert file == old(file) + EncodeEntry(WalEntry(sequence, payload));
      nextSequence := nextSequence + 1;
      return Ok(sequence);
    }

    method ReadAllEntries() returns (r: Result<seq<WalEntry>, WalError>)
      requires |file| >= WAL_HEADER_SIZE
      ensures r == Parse(file[WAL_HEADER_SIZE..])
    {
      r := ReadEntries(file);
    }

    /** Entries from a sequence number on, at most `limit` of them. */
    method ReadEntriesFrom(from: nat, limit: Option<nat>) returns (r: Result<seq<WalEntry>, WalError>)
      requires |file| >= WAL_HEADER_SIZE
      ensures r.Err? <==> Parse(file[WAL_HEADER_SIZE..]).Err?
      ensures r.Err? ==> r.error == Parse(file[WAL_HEADER_SIZE..]).error
      ensures r.Ok? ==> r.value == AtMost(From(Parse(file[WAL_HEADER_SIZE..]).value, from), limit)
    {
      var all := ReadAllEntries();
      if all.Err? {
        return all;
      }
      var kept := [];
      for i := 0 to |all.value|
        invariant kept == From(all.value[..i], from)
      {
        assert all.value[..i + 1][..i] == all.value[..i];
        if all.value[i].sequence >= from {
          kept := kept + [all.value[i]];
        }
      }
      assert all.value[..|all.value|] == all.value;
      return Ok(AtMost(kept, limit));
    }

    method TruncatePreserveNextSequence()
      modifies this
      ensures Model() == Truncate(old(Model()))
    {
      var keepNext := Max(nextSequence, 1);
      file := WAL_MAGIC;
      file := file + LittleEndian(WAL_VERSION, 2);
      hint := Some(keepNext);
      nextSequence := keepNext;
    }
  }

  function From(es: seq<WalEntry>, from: nat): seq<WalEntry> {
    if es == [] then []
    else
      var before := From(es[..|es| - 1], from);
      if es[|es| - 1].sequence >= from then before + [es[|es| - 1]] else before
  }
}
