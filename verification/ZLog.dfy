/**
 Rolling log files: the write path of the logger over a directory of numbered files.
 File 0 is the current file, file i the i-th rolled one ("<prefix>-i"). A file is the
 sequence of the records appended to it.
 */
module ZLog {

  type Record = string
  type Directory = map<nat, seq<Record>>

  /** What the configuration fixes. */
  datatype Config = Config(level: int, fileLog: bool, maxSize: int, maxRolling: int)

  /** The directory, and whether the current file is held open. */
  datatype LogState = LogState(files: Directory, open: bool)

  datatype Op = Write(level: int, rec: Record) | Free

  function Size(f: seq<Record>): nat
  {
    if f == [] then 0 else Size(f[..|f| - 1]) + |f[|f| - 1]|
  }

  // ---- specification ----

  /** fopen(current, "a") */
  function OpenAppend(fs: Directory): Directory
  {
    if 0 in fs then fs else fs[0 := []]
  }

  /** rename(from, to); nothing happens when the source does not exist. */
  function Rename(fs: Directory, from: nat, to: nat): Directory
  {
    if from in fs then (fs - {from})[to := fs[from]] else fs
  }

  /** The renames i -> i + 1 for i = count - 1 down to 0. */
  function RenameDown(fs: Directory, count: nat): Directory
    decreases count
  {
    if count == 0 then fs else RenameDown(Rename(fs, count - 1, count), count - 1)
  }

  /** Make room for a new current file. */
  function Rolled(cfg: Config, fs: Directory): Directory
  {
    if cfg.maxRolling == 0 then fs - {0}
    else if cfg.maxRolling > 0 then RenameDown(fs, cfg.maxRolling)
    else fs
  }

  function AppendCurrent(fs: Directory, rec: Record): Directory
    requires 0 in fs
  {
    fs[0 := fs[0] + [rec]]
  }

  /** One log call: the size test sees only a file that was already open. */
  function Step(cfg: Config, st: LogState, op: Op): LogState
    requires st.open ==> 0 in st.files
  {
    match op
    case Free => st.(open := false)
    case Write(level, rec) =>
      if level < cfg.level || !cfg.fileLog then st
      else
        var size := if st.open then Size(st.files[0]) else 0;
        var fs := if st.open then st.files else OpenAppend(st.files);
        var gs := if size > cfg.maxSize then OpenAppend(Rolled(cfg, fs)) else fs;
        LogState(AppendCurrent(gs, rec), true)
  }

  function Run(cfg: Config, ops: seq<Op>): (st: LogState)
    ensures st.open ==> 0 in st.files
  {
    if ops == [] then LogState(map[0 := []], true) else Step(cfg, Run(cfg, ops[..|ops| - 1]), ops[|ops| - 1])
  }

  /** Everything the run was asked to write to the file. */
  function History(cfg: Config, ops: seq<Op>): seq<Record>
  {
    if ops == [] then []
    else
      var h := History(cfg, ops[..|ops| - 1]);
      match ops[|ops| - 1]
      case Write(level, rec) => if level < cfg.level || !cfg.fileLog then h else h + [rec]
      case Free => h
  }

  // ---- what a run keeps ----

  /** The files are exactly 0..k. */
  ghost predicate Contiguous(fs: Directory, k: nat)
  {
    forall i: nat :: i in fs <==> i <= k
  }

  /** Files k, k-1, .., 0 put together: oldest record first. */
  function Chronicle(fs: Directory, k: nat): seq<Record>
  {
    (if k in fs then fs[k] else []) + if k == 0 then [] else Chronicle(fs, k - 1)
  }

  /** tail is the end of whole. */
  ghost predicate IsSuffix(tail: seq<Record>, whole: seq<Record>)
  {
    |tail| <= |whole| && whole[|whole| - |tail|..] == tail
  }

  /** gs is fs with files 0..count-1 moved up by one; what was file count is gone. */
  ghost predicate Shifted(fs: Directory, gs: Directory, count: nat)
  {
    && (forall j: nat :: 0 < j <= count ==> (j in gs <==> j - 1 in fs))
    && (forall j: nat :: 0 < j <= count && j in gs ==> gs[j] == fs[j - 1])
    && (forall j: nat :: j > count ==> (j in gs <==> j in fs))
    && (forall j: nat :: j > count && j in gs ==> gs[j] == fs[j])
    && (count > 0 ==> 0 !in gs) && (count == 0 ==> gs == fs)
  }

  /** The renames shift the files up, whenever those below count have no gap. */
  lemma {:induction false} RenameDownShifts(fs: Directory, count: nat)
    requires forall i: nat :: i + 1 in fs && i < count ==> i in fs
    ensures Shifted(fs, RenameDown(fs, count), count)
    decreases count
  {
    assert NoGap(fs, count);
    ShiftsFrom(fs, count);
  }

  ghost predicate NoGap(fs: Directory, count: nat)
  {
    forall i: nat :: i + 1 in fs && i < count ==> i in fs
  }

  lemma RenamedNoGap(fs: Directory, count: nat)
    requires count > 0 && NoGap(fs, count)
    ensures NoGap(Rename(fs, count - 1, count), count - 1)
  {
    var gs := Rename(fs, count - 1, count);
    forall i: nat | i + 1 in gs && i < count - 1 ensures i in gs { assert i + 1 in fs; }
  }

  lemma {:induction false} ShiftsFrom(fs: Directory, count: nat)
    requires NoGap(fs, count)
    ensures Shifted(fs, RenameDown(fs, count), count)
    decreases count
  {
    hide Shifted, NoGap, Rename;
    if count > 0 {
      var gs := Rename(fs, count - 1, count);
      RenamedNoGap(fs, count);
      ShiftsFrom(gs, count - 1);
      ShiftedOnce(fs, gs, RenameDown(gs, count - 1), count);
    } else {
      NotShifted(fs);
    }
  }

  lemma NotShifted(fs: Directory)
    ensures Shifted(fs, fs, 0)
  {
  }

  /** The highest file first, then the files below it. */
  lemma ShiftedOnce(fs: Directory, gs: Directory, hs: Directory, count: nat)
    requires count > 0 && gs == Rename(fs, count - 1, count) && Shifted(gs, hs, count - 1)
    requires NoGap(fs, count)
    ensures Shifted(fs, hs, count)
  {
    assert count - 1 + 1 == count;
    forall j: nat | 0 < j <= count ensures j in hs <==> j - 1 in fs {
      if j < count { assert j in hs <==> j - 1 in gs; }
    }
    forall j: nat | 0 < j <= count && j in hs ensures hs[j] == fs[j - 1] {
      if j < count { assert hs[j] == gs[j - 1]; }
    }
  }

  /**
   After any run the files are 0..k with k <= N, and read from the oldest to the current one
   they are the end of everything written; nothing is missing until file N exists.
   */
  ghost predicate Kept(cfg: Config, fs: Directory, k: nat, history: seq<Record>)
  {
    && Contiguous(fs, k) && k <= cfg.maxRolling
    && IsSuffix(Chronicle(fs, k), history)
    && (k < cfg.maxRolling ==> Chronicle(fs, k) == history)
  }

  lemma {:induction false} ChronicleSame(fs: Directory, gs: Directory, k: nat)
    requires forall j: nat :: j <= k ==> j in fs && j in gs && fs[j] == gs[j]
    ensures Chronicle(fs, k) == Chronicle(gs, k)
  {
    if k > 0 { ChronicleSame(fs, gs, k - 1); }
  }

  /** Appending to the current file appends to the chronicle. */
  lemma {:induction false} ChronicleAppend(fs: Directory, k: nat, rec: Record)
    requires Contiguous(fs, k)
    ensures Chronicle(AppendCurrent(fs, rec), k) == Chronicle(fs, k) + [rec]
  {
    ChronicleAppendTo(fs, k, rec);
  }

  lemma {:induction false} ChronicleAppendTo(fs: Directory, k: nat, rec: Record)
    requires forall j: nat :: j <= k ==> j in fs
    ensures Chronicle(AppendCurrent(fs, rec), k) == Chronicle(fs, k) + [rec]
  {
    if k > 0 { ChronicleAppendTo(fs, k - 1, rec); }
  }

  /** Shifting the files and starting an empty current one leaves the chronicle as it is. */
  lemma {:induction false} ChronicleShift(fs: Directory, gs: Directory, k: nat)
    requires forall j: nat :: j <= k ==> j in fs
    requires forall j: nat :: 0 < j <= k + 1 ==> j in gs && gs[j] == fs[j - 1]
    requires 0 in gs && gs[0] == []
    ensures Chronicle(gs, k + 1) == Chronicle(fs, k)
  {
    if k > 0 {
      ChronicleShift(fs, gs, k - 1);
    } else {
      assert Chronicle(gs, 0) == [];
    }
  }

  /** The oldest file is the front of the chronicle. */
  lemma {:induction false} ChronicleDrop(fs: Directory, k: nat)
    requires k > 0 && forall j: nat :: j <= k ==> j in fs
    ensures IsSuffix(Chronicle(fs, k - 1), Chronicle(fs, k))
  {
  }

  lemma SuffixTrans(a: seq<Record>, b: seq<Record>, c: seq<Record>)
    requires IsSuffix(a, b) && IsSuffix(b, c)
    ensures IsSuffix(a, c)
  {
    assert c[|c| - |b|..][|b| - |a|..] == c[|c| - |a|..];
  }

  lemma SuffixAppend(a: seq<Record>, b: seq<Record>, rec: Record)
    requires IsSuffix(a, b)
    ensures IsSuffix(a + [rec], b + [rec])
  {
    assert (b + [rec])[|b| - |a|..] == b[|b| - |a|..] + [rec];
  }

  /** One rotation keeps the invariant with one more file, up to N. */
  lemma {:induction false} RotationKeeps(cfg: Config, fs: Directory, k: nat, history: seq<Record>)
    requires cfg.maxRolling >= 1 && Kept(cfg, fs, k, history)
    ensures
      var k' := if k < cfg.maxRolling then k + 1 else k;
      Kept(cfg, OpenAppend(Rolled(cfg, fs)), k', history) && OpenAppend(Rolled(cfg, fs))[0] == []
  {
    var n := cfg.maxRolling;
    RenameDownShifts(fs, n);
    var gs := OpenAppend(Rolled(cfg, fs));
    assert Shifted(fs, Rolled(cfg, fs), n);
    var m := if k < n then k else k - 1;
    forall j: nat | 0 < j <= m + 1 ensures j in gs && gs[j] == fs[j - 1] {
      assert j - 1 in fs;
    }
    RotatedContiguous(fs, gs, n, k);
    ChronicleShift(fs, gs, m);
    if k == n {
      ChronicleDrop(fs, k);
      SuffixTrans(Chronicle(fs, k - 1), Chronicle(fs, k), history);
    }
  }

  lemma {:induction false} RotatedContiguous(fs: Directory, gs: Directory, n: nat, k: nat)
    requires n >= 1 && Contiguous(fs, k) && k <= n && Shifted(fs, RenameDown(fs, n), n)
    requires gs == OpenAppend(RenameDown(fs, n))
    ensures Contiguous(gs, if k < n then k + 1 else k)
  {
    forall j: nat ensures j in gs <==> j <= if k < n then k + 1 else k {
      if 0 < j <= n {
        assert j in RenameDown(fs, n) <==> j - 1 in fs;
      }
    }
  }

  lemma {:induction false} CurrentExists(cfg: Config, fs: Directory, k: nat, history: seq<Record>)
    requires Kept(cfg, fs, k, history)
    ensures 0 in fs
  {
  }

  /** Appending one record keeps the invariant. */
  lemma {:induction false} AppendKeeps(cfg: Config, fs: Directory, k: nat, history: seq<Record>, rec: Record)
    requires Kept(cfg, fs, k, history)
    ensures Kept(cfg, AppendCurrent(fs, rec), k, history + [rec])
  {
    ChronicleAppend(fs, k, rec);
    SuffixAppend(Chronicle(fs, k), history, rec);
  }

  /** One call keeps the invariant; a rotation may add a file. */
  lemma {:induction false} StepKeeps(cfg: Config, st: LogState, k: nat, history: seq<Record>, level: int, rec: Record)
    returns (k': nat)
    requires cfg.maxRolling >= 1 && Kept(cfg, st.files, k, history) && level >= cfg.level && cfg.fileLog
    ensures Kept(cfg, Step(cfg, st, Write(level, rec)).files, k', history + [rec])
  {
    CurrentExists(cfg, st.files, k, history);
    hide Kept, Rolled, Size;
    k' := k;
    var fs := st.files;
    if (if st.open then Size(fs[0]) else 0) > cfg.maxSize {
      RotationKeeps(cfg, fs, k, history);
      fs := OpenAppend(Rolled(cfg, fs));
      k' := if k < cfg.maxRolling then k + 1 else k;
    }
    AppendKeeps(cfg, fs, k', history, rec);
  }

  /** Whole-run theorem, with the log freed and reopened any number of times. */
  lemma {:induction false} RunKeeps(cfg: Config, ops: seq<Op>) returns (k: nat)
    requires cfg.maxRolling >= 1
    ensures Kept(cfg, Run(cfg, ops).files, k, History(cfg, ops))
  {
    if ops == [] {
      k := 0;
      assert Chronicle(map[0 := []], 0) == [];
    } else {
      var pre, op := ops[..|ops| - 1], ops[|ops| - 1];
      k := RunKeeps(cfg, pre);
      if op.Write? && op.level >= cfg.level && cfg.fileLog {
        k := StepKeeps(cfg, Run(cfg, pre), k, History(cfg, pre), op.level, op.rec);
      }
    }
  }

  /** A write that the level and the configuration let through. */
  predicate Accepted(cfg: Config, op: Op)
  {
    op.Write? && op.level >= cfg.level && cfg.fileLog
  }

  /** The log is open on a file over the limit; with a negative limit that holds of every file. */
  predicate Full(cfg: Config, st: LogState)
    requires st.open ==> 0 in st.files
  {
    (st.open && Size(st.files[0]) > cfg.maxSize) || cfg.maxSize < 0
  }

  /**
   A write starts a new file if and only if the log was open and the current file's size exceeds
   the limit: then every file has moved up by one, the oldest is gone, and the record stands alone
   in file 0. Otherwise the record follows those in file 0 and no other file changes.
   */
  lemma {:induction false} WriteRotatesExactly(cfg: Config, st: LogState, op: Op)
    requires (st.open ==> 0 in st.files) && Accepted(cfg, op)
    requires cfg.maxRolling >= 1 && forall i: nat :: i + 1 in st.files ==> i in st.files
    ensures var fs, gs := (if 0 in st.files then st.files else st.files[0 := []]), Step(cfg, st, op).files;
      if Full(cfg, st) then
        && 0 in gs && gs[0] == [op.rec]
        && (forall j: nat :: 0 < j <= cfg.maxRolling ==> (j in gs <==> j - 1 in fs))
        && (forall j: nat :: 0 < j <= cfg.maxRolling && j in gs ==> gs[j] == fs[j - 1])
        && (forall j: nat :: j > cfg.maxRolling ==> (j in gs <==> j in fs))
        && (forall j: nat :: j > cfg.maxRolling && j in gs ==> gs[j] == fs[j])
      else
        gs == fs[0 := fs[0] + [op.rec]]
  {
    hide Size, RenameDown;
    if Full(cfg, st) {
      var fs := if 0 in st.files then st.files else st.files[0 := []];
      RenameDownShifts(fs, cfg.maxRolling);
      assert Rolled(cfg, fs) == RenameDown(fs, cfg.maxRolling);
      assert [] + [op.rec] == [op.rec];
    }
  }

  /** With no rolled files at all, a new file takes the place of the old one. */
  lemma WriteWithoutRolling(cfg: Config, st: LogState, op: Op)
    requires (st.open ==> 0 in st.files) && Accepted(cfg, op) && cfg.maxRolling == 0
    ensures Step(cfg, st, op).files[0] ==
      (if Full(cfg, st) || 0 !in st.files then [] else st.files[0]) + [op.rec]
    ensures Step(cfg, st, op).files - {0} == st.files - {0}
  {
    hide Size;
  }

  /** Everything else leaves the files alone; freeing closes the log and an accepted write opens it. */
  lemma StepOtherwise(cfg: Config, st: LogState, op: Op)
    requires st.open ==> 0 in st.files
    ensures !Accepted(cfg, op) ==> Step(cfg, st, op).files == st.files
    ensures Step(cfg, st, op).open <==> Accepted(cfg, op) || (st.open && !op.Free?)
  {
    hide Size, Rolled;
  }

  /** The size of a file is the number of characters in it. */
  lemma {:induction false} SizeCounts(f: seq<Record>)
    ensures Size(f) == |Contents(f)|
  {
    if f != [] { SizeCounts(f[..|f| - 1]); }
  }

  function Contents(f: seq<Record>): string
  {
    if f == [] then "" else Contents(f[..|f| - 1]) + f[|f| - 1]
  }

  /** The size a file had when its last record was added. */
  function SizeBeforeLast(f: seq<Record>): nat
  {
    if f == [] then 0 else Size(f[..|f| - 1])
  }

  ghost predicate Bounded(cfg: Config, fs: Directory)
  {
    forall j: nat :: j in fs ==> SizeBeforeLast(fs[j]) <= cfg.maxSize
  }

  /** An accepted write that finds the log closed and the current file over the limit already. */
  predicate Overgrows(cfg: Config, st: LogState, op: Op)
  {
    && op.Write? && op.level >= cfg.level && cfg.fileLog
    && !st.open && 0 in st.files && Size(st.files[0]) > cfg.maxSize
  }

  /**
   Over every run, after each call every file is over the limit by at most its last record, if
   and only if no write reopened the log on a file that was over the limit already.
   */
  lemma {:induction false} RunBoundedExact(cfg: Config, ops: seq<Op>)
    requires cfg.maxRolling >= 1 && cfg.maxSize >= 0
    ensures (forall k :: 0 <= k <= |ops| ==> Bounded(cfg, Run(cfg, ops[..k]).files))
       <==> (forall k :: 0 <= k < |ops| ==> !Overgrows(cfg, Run(cfg, ops[..k]), ops[k]))
  {
    hide Bounded, Overgrows, Run;
    if ops == [] {
      assert ops[..0] == [];
      StartBounded(cfg);
    } else {
      var n := |ops| - 1;
      var pre := ops[..n];
      RunBoundedExact(cfg, pre);
      assert forall k :: 0 <= k <= n ==> pre[..k] == ops[..k];
      assert ops[..|ops|] == ops;
      if Bounded(cfg, Run(cfg, pre).files) {
        LastStep(cfg, ops);
      }
    }
  }

  lemma StartBounded(cfg: Config)
    requires cfg.maxSize >= 0
    ensures Bounded(cfg, Run(cfg, []).files)
  {
  }

  lemma {:induction false} LastStep(cfg: Config, ops: seq<Op>)
    requires cfg.maxRolling >= 1 && cfg.maxSize >= 0 && ops != []
    requires Bounded(cfg, Run(cfg, ops[..|ops| - 1]).files)
    ensures Bounded(cfg, Run(cfg, ops).files) <==> !Overgrows(cfg, Run(cfg, ops[..|ops| - 1]), ops[|ops| - 1])
  {
    var k := RunKeeps(cfg, ops[..|ops| - 1]);
    StepBounded(cfg, Run(cfg, ops[..|ops| - 1]), ops[|ops| - 1], k);
  }

  /** One call on a bounded directory keeps it bounded exactly when it does not overgrow a file. */
  lemma {:induction false} StepBounded(cfg: Config, st: LogState, op: Op, k: nat)
    requires cfg.maxRolling >= 1 && cfg.maxSize >= 0 && Contiguous(st.files, k) && Bounded(cfg, st.files)
    ensures Bounded(cfg, Step(cfg, st, op).files) <==> !Overgrows(cfg, st, op)
  {
    if op.Write? && op.level >= cfg.level && cfg.fileLog {
      var fs := st.files;
      if st.open && Size(fs[0]) > cfg.maxSize {
        RolledBounded(cfg, fs);
        fs := OpenAppend(Rolled(cfg, fs));
      }
      hide Rolled, RenameDown;
      AppendBounded(cfg, fs, op.rec);
    }
  }

  /** In particular while the log is never freed. */
  lemma {:induction false} RunBounded(cfg: Config, ops: seq<Op>)
    requires cfg.maxRolling >= 1 && cfg.maxSize >= 0 && forall i :: 0 <= i < |ops| ==> ops[i].Write?
    ensures Run(cfg, ops).open && Bounded(cfg, Run(cfg, ops).files)
  {
    forall k | 0 <= k <= |ops| ensures Run(cfg, ops[..k]).open { StaysOpen(cfg, ops[..k]); }
    RunBoundedExact(cfg, ops);
    assert ops[..|ops|] == ops;
  }

  lemma {:induction false} StaysOpen(cfg: Config, ops: seq<Op>)
    requires forall i :: 0 <= i < |ops| ==> ops[i].Write?
    ensures Run(cfg, ops).open
  {
    if ops != [] { StaysOpen(cfg, ops[..|ops| - 1]); }
  }

  lemma {:induction false} RolledBounded(cfg: Config, fs: Directory)
    requires cfg.maxRolling >= 1 && cfg.maxSize >= 0 && Bounded(cfg, fs) && forall i: nat :: i + 1 in fs ==> i in fs
    ensures var gs := OpenAppend(Rolled(cfg, fs)); 0 in gs && gs[0] == [] && Bounded(cfg, gs)
  {
    RenameDownShifts(fs, cfg.maxRolling);
    assert SizeBeforeLast([]) == 0;
  }

  lemma AppendBounded(cfg: Config, fs: Directory, rec: Record)
    requires 0 in fs && Bounded(cfg, fs)
    ensures Bounded(cfg, AppendCurrent(fs, rec)) <==> Size(fs[0]) <= cfg.maxSize
  {
    var f := fs[0] + [rec];
    assert f[..|f| - 1] == fs[0];
    assert AppendCurrent(fs, rec)[0] == f;
  }

  /** Whatever the limit, freeing the log between two writes can break the bound. */
  lemma FreeBreaksBound(maxSize: nat)
    ensures
      var cfg := Config(0, true, maxSize, 1);
      var long: Record := seq(maxSize + 1, _ => 'a');
      !Bounded(cfg, Run(cfg, [Write(0, long), Free, Write(0, "b")]).files)
  {
    var cfg := Config(0, true, maxSize, 1);
    var long: Record := seq(maxSize + 1, _ => 'a');
    var o1: seq<Op> := [Write(0, long)];
    var o2: seq<Op> := [Write(0, long), Free];
    var o3: seq<Op> := [Write(0, long), Free, Write(0, "b")];
    assert o1[..0] == [] && o2[..1] == o1 && o3[..2] == o2;
    assert Size([]) == 0;
    assert Run(cfg, o1).files[0] == [long];
    assert Run(cfg, o2).files[0] == [long] && !Run(cfg, o2).open;
    assert Run(cfg, o3).files[0] == [long, "b"];
    assert [long, "b"][..1] == [long] && [long][..0] == [];
    assert Size([long]) == maxSize + 1;
  }

  // ---- the logger object ----

  /** Zlog with its open file and the directory it writes to. */
  class Logger {
    var level: int
    var fileLog: bool
    var maxLogFileSize: int
    var maxRollingLogFile: int
    var fp: bool
    var files: Directory

    ghost predicate Valid()
      reads this
    {
      fp ==> 0 in files
    }

    ghost function Settings(): Config
      reads this
    {
      Config(level, fileLog, maxLogFileSize, maxRollingLogFile)
    }

    ghost function State(): LogState
      reads this
    {
      LogState(files, fp)
    }

    constructor (cfg: Config)
      ensures Valid() && Settings() == cfg && State() == Run(cfg, [])
    {
      level, fileLog, maxLogFileSize, maxRollingLogFile := cfg.level, cfg.fileLog, cfg.maxSize, cfg.maxRolling;
      fp, files := true, map[0 := []];
    }

    /** log_free */
    method LogFree()
      requires Valid()
      modifies this
      ensures Valid() && Settings() == old(Settings())
      ensures State() == Step(Settings(), old(State()), Free)
    {
      fp := false;
    }

    method Open()
      requires Valid()
      modifies this
      ensures Valid() && Settings() == old(Settings()) && fp && files == OpenAppend(old(files))
    {
      if 0 !in files {
        files := files[0 := []];
      }
      fp := true;
    }

    /** The rename loop, from the oldest file down to the current one. */
    method Rotate()
      requires !fp && maxRollingLogFile != 0
      modifies this
      ensures Settings() == old(Settings()) && !fp && files == Rolled(Settings(), old(files))
    {
      var i := maxRollingLogFile - 1;
      while i >= 0
        invariant Settings() == old(Settings()) && !fp && (maxRollingLogFile < 0 ==> i < 0)
        invariant maxRollingLogFile > 0 ==> i >= -1
        invariant i >= -1 ==> RenameDown(files, i + 1) == Rolled(Settings(), old(files))
        invariant i < -1 ==> files == old(files)
      {
        if i in files {
          files := (files - {i})[i + 1 := files[i]];
        }
        i := i - 1;
      }
    }

    /** log_log for a formatted record. */
    method LogLog(lvl: int, rec: Record)
      requires Valid()
      modifies this
      ensures Valid() && Settings() == old(Settings())
      ensures State() == Step(Settings(), old(State()), Write(lvl, rec))
    {
      if lvl < level {
        return;
      }
      if fileLog {
        var size := 0;
        if fp {
          size := Size(files[0]);
        }
        if !fp {
          Open();
        }
        if size > maxLogFileSize {
          LogFree();
          if maxRollingLogFile == 0 {
            files := files - {0};
          } else {
            Rotate();
          }
          Open();
        }
        files := AppendCurrent(files, rec);
      }
    }
  }
}
