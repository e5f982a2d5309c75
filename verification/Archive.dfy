/** The archive writer: records are appended to a log file, their offsets are
    handed out as an index, and full files are rotated away. */
module Archive {

  const MAX_LEN: nat := 2048          // size of the path and record buffers
  const UINT32: nat := 0x1_0000_0000

  /** The part of an event the archiver writes. */
  datatype Event = Event(fileName: string, fileOffset: nat)

  /** A record: the file session it went to and its log name, the bytes the file held before
      it, where it starts in the session and how long it is. */
  datatype Extent = Extent(session: nat, name: string, before: nat, start: nat, length: nat)

  /** How many bytes the records of a session take. */
  ghost function BytesIn(recs: seq<Extent>, session: nat): nat {
    if recs == [] then 0
    else BytesIn(recs[..|recs| - 1], session)
         + if recs[|recs| - 1].session == session then recs[|recs| - 1].length else 0
  }

  /** Every record starts where the earlier records of its session end. */
  ghost predicate Tiled(recs: seq<Extent>) {
    forall i :: 0 <= i < |recs| ==> recs[i].length > 0 && recs[i].start == BytesIn(recs[..i], recs[i].session)
  }

  ghost predicate Covers(r: Extent, session: nat, byte: nat) {
    r.session == session && r.start <= byte < r.start + r.length
  }

  lemma {:induction false} BytesGrow(recs: seq<Extent>, i: nat, j: nat, session: nat)
    requires i <= j <= |recs|
    ensures BytesIn(recs[..i], session) <= BytesIn(recs[..j], session)
    ensures i < j && recs[i].session == session ==>
              BytesIn(recs[..i], session) + recs[i].length <= BytesIn(recs[..j], session)
    decreases j
  {
    if i < j {
      assert recs[..j][..j - 1] == recs[..j - 1];
      BytesGrow(recs, i, j - 1, session);
    }
  }

  /** No two records of a session share a byte. */
  lemma NoOverlap(recs: seq<Extent>, i: nat, j: nat, session: nat, byte: nat)
    requires Tiled(recs) && i < |recs| && j < |recs|
    requires Covers(recs[i], session, byte) && Covers(recs[j], session, byte)
    ensures i == j
  {
    if i < j {
      BytesGrow(recs, i, j, session);
    } else if j < i {
      BytesGrow(recs, j, i, session);
    }
  }

  /** Every byte of a session belongs to a record. */
  lemma {:induction false} NoGap(recs: seq<Extent>, session: nat, byte: nat)
    requires Tiled(recs) && byte < BytesIn(recs, session)
    ensures exists i :: 0 <= i < |recs| && Covers(recs[i], session, byte)
  {
    var m := |recs| - 1;
    var last := recs[m];
    if last.session == session && last.start <= byte {
      assert Covers(recs[m], session, byte);
    } else {
      forall i | 0 <= i < m ensures recs[..m][i].length > 0
        && recs[..m][i].start == BytesIn(recs[..m][..i], recs[..m][i].session)
      {
        assert recs[..m][..i] == recs[..i];
      }
      NoGap(recs[..m], session, byte);
      var i :| 0 <= i < m && Covers(recs[..m][i], session, byte);
      assert Covers(recs[i], session, byte);
    }
  }

  lemma TiledAppend(recs: seq<Extent>, r: Extent)
    requires Tiled(recs) && r.length > 0 && r.start == BytesIn(recs, r.session)
    ensures Tiled(recs + [r])
    ensures forall s :: BytesIn(recs + [r], s) == BytesIn(recs, s) + if s == r.session then r.length else 0
  {
    assert (recs + [r])[..|recs|] == recs;
    forall i | 0 <= i < |recs + [r]| ensures (recs + [r])[i].start == BytesIn((recs + [r])[..i], (recs + [r])[i].session) {
      if i < |recs| {
        assert (recs + [r])[..i] == recs[..i];
      }
    }
  }

  lemma LastCounted(recs: seq<Extent>, session: nat)
    requires recs != [] && recs[|recs| - 1].session == session
    ensures BytesIn(recs, session) == BytesIn(recs[..|recs| - 1], session) + recs[|recs| - 1].length
  {
  }

  lemma {:induction false} NothingIn(recs: seq<Extent>, session: nat)
    requires forall i :: 0 <= i < |recs| ==> recs[i].session != session
    ensures BytesIn(recs, session) == 0
  {
    if recs != [] {
      NothingIn(recs[..|recs| - 1], session);
    }
  }

  class Archiver {
    const baseDir: string
    const maxFilesize: nat
    const indexFlag: bool

    var open: bool                  // fd >= 0
    var logfile: string
    var fileSize: nat               // 32 bits
    var fpOffset: nat
    var files: map<string, nat>     // the bytes in each file, by path

    ghost var base: nat             // bytes in the file when it was opened
    ghost var session: nat          // files opened so far
    ghost var recs: seq<Extent>

    /** The path of a log file fits the buffer of rotate_archievefile. */
    predicate NameFits(name: string) {
      |baseDir| + 1 + |name| < MAX_LEN
    }

    predicate PathFits()
      reads this`logfile
    {
      NameFits(logfile)
    }

    /** Records of files whose path fits start below the limit. */
    ghost predicate StartsBelow(recs: seq<Extent>) {
      forall i :: 0 <= i < |recs| ==> NameFits(recs[i].name) ==> recs[i].start < maxFilesize
    }

    /** Every record starts where its file ended: all files were new when they were opened. */
    ghost predicate Exact()
      reads this
    {
      (open ==> base == 0) && forall i :: 0 <= i < |recs| ==> recs[i].before == recs[i].start
    }

    /** The path that is opened for a log name: the buffer cuts a longer one. */
    function PathOf(name: string): (path: string)
      ensures |path| < MAX_LEN
    {
      var path := baseDir + "/" + name;
      if |path| < MAX_LEN then path else path[..MAX_LEN - 1]
    }

    /** A log name whose path fits has a file of its own. */
    lemma OwnFile(name: string, name': string)
      requires |baseDir| + 1 + |name| < MAX_LEN - 1 && PathOf(name) == PathOf(name')
      ensures name == name'
    {
      var p, p' := baseDir + "/" + name, baseDir + "/" + name';
      assert |p'| < MAX_LEN;
      assert name == p[|baseDir| + 1..] && name' == p'[|baseDir| + 1..];
    }

    ghost predicate Valid()
      reads this
    {
      && 0 < maxFilesize <= UINT32 - MAX_LEN
      && Tiled(recs) && StartsBelow(recs)
      && (forall i :: 0 <= i < |recs| ==> recs[i].session <= session)
      && (open ==> PathOf(logfile) in files && files[PathOf(logfile)] == base + BytesIn(recs, session))
      && (open && PathFits() ==> fileSize == BytesIn(recs, session) < maxFilesize)
      && (open ==> fpOffset == fileSize == BytesIn(recs, session) % UINT32)
    }

    constructor (baseDir: string, maxFilesize: nat, indexFlag: bool, files: map<string, nat>)
      requires 0 < maxFilesize <= UINT32 - MAX_LEN
      ensures Valid() && recs == [] && !open && Exact()
      ensures this.baseDir == baseDir && this.maxFilesize == maxFilesize && this.indexFlag == indexFlag && this.files == files
    {
      this.baseDir, this.maxFilesize, this.indexFlag, this.files := baseDir, maxFilesize, indexFlag, files;
      open, logfile, fileSize, fpOffset := false, "", 0, 0;
      base, session, recs := 0, 0, [];
    }

    /** create_archievefile: opens a file for appending; the environment chooses its name. */
    method CreateFile(name: string) returns (ok: bool)
      requires Valid() && !open
      modifies this`open, this`logfile, this`fileSize, this`fpOffset, this`files, this`base, this`session
      ensures Valid() && ok == open
      ensures ok ==> logfile == name && session == old(session) + 1 && BytesIn(recs, session) == 0
      ensures ok ==> base == if PathOf(name) in old(files) then old(files)[PathOf(name)] else 0
      ensures files.Keys <= old(files).Keys + {PathOf(name)}
    {
      hide Tiled, PathOf, StartsBelow, NameFits;
      ok := *;
      logfile := if ok then name else "";
      if ok {
        var path := PathOf(name);
        var size := if path in files then files[path] else 0;
        files, base := files[path := size], size;
        open, fileSize, fpOffset, session := true, 0, 0, session + 1;
        NothingIn(recs, session);
      }
    }

    /** The bytes that attempts have written; a failed one has written none. */
    ghost function Sum(parts: seq<int>): int {
      if parts == [] then 0 else Sum(parts[..|parts| - 1]) + if parts[|parts| - 1] < 0 then 0 else parts[|parts| - 1]
    }

    /** write_to_file: up to three attempts; every attempt may write any part. `parts` are the
        results of the attempts: it gives up after the third, or at an error. */
    method WriteToFile(copylen: nat) returns (written: nat, ghost parts: seq<int>)
      requires open && PathOf(logfile) in files
      modifies this`files
      ensures written <= copylen
      ensures files == old(files)[PathOf(logfile) := old(files)[PathOf(logfile)] + written]
      ensures written == Sum(parts) && |parts| <= 3 && forall i :: 0 <= i < |parts| - 1 ==> parts[i] >= 0
      ensures written < copylen ==> |parts| == 3 || (parts != [] && parts[|parts| - 1] < 0)
    {
      hide PathOf;
      var path := PathOf(logfile);
      var wtry, wlen := 3, copylen;
      parts := [];
      while wlen != 0 && wtry != 0
        invariant 0 <= wlen <= copylen && 0 <= wtry <= 3
        invariant |parts| == 3 - wtry && Sum(parts) == copylen - wlen
        invariant forall i :: 0 <= i < |parts| ==> parts[i] >= 0
        invariant files == old(files)[path := old(files)[path] + (copylen - wlen)]
      {
        wtry := wtry - 1;
        var part := Attempt(wlen);
        ghost var was := parts;
        parts := parts + [part];
        assert parts[..|was|] == was;
        if part < 0 {
          break;
        }
        files := files[path := files[path] + part];
        wlen := wlen - part;
      }
      written := copylen - wlen;
    }

    /** write(): an error, or any number of bytes up to the request. */
    method Attempt(wlen: nat) returns (part: int)
      ensures -1 <= part <= wlen
    {
      part := *;
      if part < -1 || part > wlen {
        part := -1;
      }
    }

    /** rotate_archievefile: closes the file and moves it away, unless its path does
        not fit the buffer. */
    method Rotate() returns (ghost moved: bool)
      modifies this`open, this`files
      ensures open == (old(open) && !PathFits())
      ensures open ==> files == old(files)
      ensures old(Valid()) ==> Valid()
      ensures files.Keys <= old(files).Keys
      ensures files == if old(open) && PathFits() && moved then old(files) - {PathOf(logfile)} else old(files)
    {
      hide Tiled, BytesIn, PathOf, StartsBelow;
      moved := false;
      if !open {
        return;
      }
      if |baseDir| + 1 + |logfile| >= MAX_LEN {
        return;
      }
      open := false;
      var renamed := *;
      moved := renamed;
      if renamed {
        files := files - {PathOf(logfile)};
      }
    }

    /** Books a record of `written` bytes: its offset is where the file ended before it. */
    method Book(ev: Event, written: nat) returns (out: Event)
      requires open && 0 < written <= MAX_LEN && 0 < maxFilesize <= UINT32 - MAX_LEN
      requires Tiled(recs) && StartsBelow(recs) && (forall i :: 0 <= i < |recs| ==> recs[i].session <= session)
      requires PathFits() ==> fileSize == BytesIn(recs, session) < maxFilesize
      requires fpOffset == fileSize == BytesIn(recs, session) % UINT32
      requires PathOf(logfile) in files && files[PathOf(logfile)] == base + BytesIn(recs, session) + written
      modifies this`recs, this`fileSize, this`fpOffset, this`open, this`files
      ensures Valid()
      ensures recs == old(recs) + [Extent(session, logfile, base + BytesIn(old(recs), session), BytesIn(old(recs), session), written)]
      ensures files.Keys <= old(files).Keys
      ensures indexFlag ==> out == Event(logfile, BytesIn(old(recs), session) % UINT32)
      ensures !indexFlag ==> out == ev
      ensures fileSize == (old(fileSize) + written) % UINT32 && (open <==> fileSize < maxFilesize || !PathFits())
    {
      hide Tiled, BytesIn, PathOf, StartsBelow;
      ghost var start := BytesIn(recs, session);
      ghost var rec := Extent(session, logfile, base + start, start, written);
      TiledAppend(recs, rec);
      StartsBelowAppend(recs, rec);
      recs := recs + [rec];
      fileSize := (fileSize + written) % UINT32;
      out := ev;
      if indexFlag {
        out := Event(logfile, fpOffset);
      }
      fpOffset := fileSize;
      if fileSize >= maxFilesize {
        ghost var moved := Rotate();
      }
    }

    lemma StartsBelowAppend(recs: seq<Extent>, r: Extent)
      requires StartsBelow(recs) && (NameFits(r.name) ==> r.start < maxFilesize)
      ensures StartsBelow(recs + [r])
    {
    }

    /** do_archieve. `copylen` is the length of the formatted record, `name` the name a
        new file would get. */
    method Archive(ev: Event, copylen: nat, name: string) returns (ok: bool, out: Event)
      requires Valid() && copylen <= MAX_LEN
      modifies this
      ensures Valid()
      ensures !ok ==> recs == old(recs) && out == ev && (old(open) ==> open && logfile == old(logfile) && session == old(session))
      ensures ok ==> |recs| == |old(recs)| + 1 && recs[..|old(recs)|] == old(recs)
      ensures ok ==> Indexed(recs[|old(recs)|], old(recs)) && Stamped(ev, out, recs[|old(recs)|])
      ensures ok ==> 0 < recs[|old(recs)|].length <= copylen
      ensures ok ==> fileSize == BytesIn(recs, session) % UINT32 && (open <==> fileSize < maxFilesize || !PathFits())
      ensures ok && old(open) ==>
                && session == old(session) && base == old(base) && logfile == old(logfile)
                && PathOf(logfile) in old(files) && recs[|old(recs)|].before == old(files)[PathOf(logfile)]
      ensures ok && !old(open) ==>
                && session == old(session) + 1 && logfile == name
                && recs[|old(recs)|].before == base == if PathOf(name) in old(files) then old(files)[PathOf(name)] else 0
      ensures files.Keys <= old(files).Keys + {PathOf(name)}
      ensures old(Exact()) && (old(open) || PathOf(name) !in old(files)) ==> Exact()
    {
      hide Tiled, BytesIn, PathOf, StartsBelow;
      ok, out := false, ev;
      if !open {
        var created := CreateFile(name);
        if !created {
          return;
        }
      }
      var written;
      ghost var parts;
      written, parts := WriteToFile(copylen);
      if written == 0 {
        return;
      }
      out := Book(ev, written);
      ok := true;
      LastCounted(recs, session);
    }

    /** The record starts at the end of the earlier records of its file session. */
    ghost predicate Indexed(r: Extent, before: seq<Extent>)
      reads this`session, this`base, this`logfile
    {
      r.session == session && r.name == logfile && r.start == BytesIn(before, session) && r.before == base + r.start
    }

    /** With indexing on, the event carries the log name and the start of its record. */
    ghost predicate Stamped(ev: Event, out: Event, r: Extent) {
      out == if indexFlag then Event(r.name, r.start % UINT32) else ev
    }

    /** The offset is exactly the bytes before the record when the file was new, and at no other time. */
    lemma OffsetIsExact(ev: Event, out: Event, r: Extent, before: seq<Extent>)
      requires Indexed(r, before) && Stamped(ev, out, r) && indexFlag && r.before < UINT32
      ensures out.fileOffset == r.before <==> base == 0
    {
    }

    /** Names whose paths are unused and differ from each other. */
    ghost predicate NewNames(names: seq<string>, used: set<string>) {
      && (forall i :: 0 <= i < |names| ==> PathOf(names[i]) !in used)
      && (forall i, j :: 0 <= i < j < |names| ==> PathOf(names[i]) != PathOf(names[j]))
    }

    ghost function Paths(names: seq<string>): set<string> {
      set i | 0 <= i < |names| :: PathOf(names[i])
    }

    /** The events of the records, as they leave the archiver. */
    ghost predicate AllStamped(ins: seq<Event>, outs: seq<Event>, recs: seq<Extent>) {
      |ins| == |outs| == |recs| && forall i :: 0 <= i < |recs| ==> Stamped(ins[i], outs[i], recs[i])
    }

    /** archiever_output: archives a batch of events until one of them fails. Each archived
        event leaves with the name and the offset of its own record. */
    method Output(events: array<Event>, lens: seq<nat>, names: seq<string>) returns (ghost done: nat)
      requires Valid() && |lens| == |names| == events.Length && forall i :: 0 <= i < |lens| ==> lens[i] <= MAX_LEN
      modifies this, events
      ensures Valid() && old(recs) <= recs
      ensures done <= events.Length && |recs| == |old(recs)| + done
      ensures AllStamped(old(events[..done]), events[..done], recs[|old(recs)|..])
      ensures forall i :: done <= i < events.Length ==> events[i] == old(events[i])
      ensures files.Keys <= old(files).Keys + Paths(names)
      ensures old(Exact()) && NewNames(names, old(files).Keys) ==> Exact()
    {
      hide Tiled, BytesIn, Valid, PathOf, Stamped, Exact;
      done := 0;
      for i := 0 to events.Length
        invariant Valid() && old(recs) <= recs && done == i && |recs| == |old(recs)| + i
        invariant forall k :: 0 <= k < i ==> Stamped(old(events[k]), events[k], recs[|old(recs)| + k])
        invariant forall k :: i <= k < events.Length ==> events[k] == old(events[k])
        invariant files.Keys <= old(files).Keys + Paths(names[..i])
        invariant old(Exact()) && NewNames(names, old(files).Keys) ==> Exact()
      {
        ghost var was := recs;
        NotUsedYet(names, i, old(files).Keys, files.Keys);
        PathsStep(names, i);
        var ok, out := Archive(events[i], lens[i], names[i]);
        events[i] := out;
        if !ok {
          PathsGrow(names, i + 1);
          return;
        }
        assert was <= recs;
        done := done + 1;
      }
      assert names[..|names|] == names;
    }

    lemma PathsStep(names: seq<string>, i: nat)
      requires i < |names|
      ensures Paths(names[..i + 1]) == Paths(names[..i]) + {PathOf(names[i])}
    {
      hide PathOf;
      var a, b := names[..i], names[..i + 1];
      assert forall k :: 0 <= k < i ==> a[k] == b[k];
      assert b[i] == names[i];
      assert forall k :: 0 <= k < i + 1 ==> PathOf(b[k]) in Paths(a) + {PathOf(names[i])};
      assert forall k :: 0 <= k < i ==> PathOf(a[k]) in Paths(b);
    }

    lemma PathsGrow(names: seq<string>, i: nat)
      requires i <= |names|
      ensures Paths(names[..i]) <= Paths(names)
    {
      hide PathOf;
      forall p | p in Paths(names[..i]) ensures p in Paths(names) {
        var k :| 0 <= k < i && PathOf(names[..i][k]) == p;
        assert PathOf(names[k]) == p;
      }
    }

    lemma NotUsedYet(names: seq<string>, i: nat, used: set<string>, now: set<string>)
      requires i < |names| && now <= used + Paths(names[..i])
      ensures NewNames(names, used) ==> PathOf(names[i]) !in now
    {
      hide PathOf;
      if NewNames(names, used) {
        forall k | 0 <= k < i
          ensures PathOf(names[..i][k]) != PathOf(names[i])
        {
          assert names[..i][k] == names[k];
        }
      }
    }

    /** archiever_event: the clock rotates the file. */
    method ClockEvent()
      requires Valid()
      modifies this`open, this`files
      ensures Valid() && (open ==> !PathFits())
      ensures files.Keys <= old(files).Keys && (old(Exact()) ==> Exact())
    {
      ghost var moved := Rotate();
    }

    /** The names the calls bring are unused, and none comes twice. */
    ghost predicate UsesNewNames(calls: seq<Call>, used: set<string>) {
      calls == [] ||
      match calls[0]
      case Clock => UsesNewNames(calls[1..], used)
      case Batch(_, _, names) => NewNames(names, used) && UsesNewNames(calls[1..], used + Paths(names))
    }

    /** Any run of output batches and clock events: the records of every file session tile it,
        an open file whose path fits is below the limit after each call, and each archived
        event leaves stamped with its record. With new file names the offset of every
        event is the number of bytes its file held before. */
    method Run(calls: seq<Call>) returns (ghost ins: seq<Event>, ghost outs: seq<Event>)
      requires Valid() && forall i :: 0 <= i < |calls| && calls[i].Batch? ==> GoodBatch(calls[i])
      modifies this
      ensures Valid() && Tiled(recs) && old(recs) <= recs
      ensures open && PathFits() ==> fileSize < maxFilesize
      ensures calls != [] && calls[|calls| - 1].Clock? && open ==> !PathFits()
      ensures AllStamped(ins, outs, recs[|old(recs)|..])
      ensures old(Exact()) && UsesNewNames(calls, old(files).Keys) && indexFlag ==>
                forall i :: 0 <= i < |outs| && NameFits(recs[|old(recs)| + i].name) ==>
                  outs[i] == Event(recs[|old(recs)| + i].name, recs[|old(recs)| + i].before)
    {
      hide Tiled, BytesIn, PathOf, Valid, Stamped, Exact, NewNames, Paths, UsesNewNames;
      ghost var used, was := files.Keys, recs;
      ins, outs := [], [];
      assert calls[0..] == calls;
      for i := 0 to |calls|
        invariant Valid() && was <= recs && files.Keys <= used
        invariant AllStamped(ins, outs, recs[|was|..])
        invariant i > 0 && calls[i - 1].Clock? && open ==> !PathFits()
        invariant old(Exact()) && UsesNewNames(calls, old(files).Keys) ==> Exact() && UsesNewNames(calls[i..], used)
      {
        ghost var before := recs;
        NextCall(calls, i, used);
        match calls[i] {
          case Batch(events, lens, names) =>
            NewerNames(names, files.Keys, used);
            var a := new Event[|events|](k requires 0 <= k < |events| => events[k]);
            assert a[..] == events;
            ghost var done := Output(a, lens, names);
            assert recs[|was|..] == before[|was|..] + recs[|before|..];
            ins, outs := ins + events[..done], outs + a[..done];
            used := used + Paths(names);
          case Clock =>
            ClockEvent();
        }
      }
      OffsetsExact(ins, outs, |was|);
    }

    lemma NextCall(calls: seq<Call>, i: nat, used: set<string>)
      requires i < |calls|
      ensures UsesNewNames(calls[i..], used) ==>
                if calls[i].Batch?
                then NewNames(calls[i].names, used) && UsesNewNames(calls[i + 1..], used + Paths(calls[i].names))
                else UsesNewNames(calls[i + 1..], used)
    {
      hide NewNames, Paths;
      assert calls[i..][1..] == calls[i + 1..];
    }

    lemma NewerNames(names: seq<string>, now: set<string>, used: set<string>)
      requires now <= used
      ensures NewNames(names, used) ==> NewNames(names, now)
    {
    }

    lemma OffsetsExact(ins: seq<Event>, outs: seq<Event>, n: nat)
      requires Valid() && n <= |recs| && AllStamped(ins, outs, recs[n..])
      ensures Tiled(recs) && (open && PathFits() ==> fileSize < maxFilesize)
      ensures Exact() && indexFlag ==>
                forall i :: 0 <= i < |outs| && NameFits(recs[n + i].name) ==> outs[i] == Event(recs[n + i].name, recs[n + i].before)
    {
      hide Tiled, BytesIn, PathOf, NameFits;
      forall i | 0 <= i < |outs| && Exact() && indexFlag && NameFits(recs[n + i].name)
        ensures outs[i] == Event(recs[n + i].name, recs[n + i].before)
      {
        assert recs[n..][i] == recs[n + i];
        assert recs[n + i].start < maxFilesize;
      }
    }
  }

  /** A call of the plugin: events with the lengths of their records and the names new files
      would get, or the clock. */
  datatype Call = Batch(events: seq<Event>, lens: seq<nat>, names: seq<string>) | Clock

  predicate GoodBatch(c: Call)
    requires c.Batch?
  {
    |c.lens| == |c.names| == |c.events| && forall i :: 0 <= i < |c.lens| ==> c.lens[i] <= MAX_LEN
  }

  /** A path that does not fit: the file stays open at its limit. */
  method LongPathStaysOpen(ev: Event, name: string) returns (ok: bool, stillOpen: bool, size: nat)
    requires |name| == MAX_LEN - 2
    ensures ok ==> stillOpen && size >= 1
  {
    hide Archiver.Valid, Archiver.PathOf, Archiver.Stamped, Archiver.Exact;
    var a := new Archiver("/", 1, false, map[]);
    var out;
    ok, out := a.Archive(ev, 1, name);
    stillOpen, size := a.open, a.fileSize;
    if ok {
      LastCounted(a.recs, a.session);
    }
  }
}
