// Log rotation by renaming (crates/loom-cli/src/main.rs, rotate_log_file_if_needed).
//
// The directory maps 0 to the content of the log file itself and i >= 1 to the content of
// the rotated file with suffix `.i`.

module LogRotation {
  import opened Options

  type Bytes = seq<bv8>

  type Files = map<nat, Bytes>

  /** The call of the file system that fails during a rotation, if any: the rename of the file
      with that number, the truncation, or the setting of permissions. */
  datatype Fault = NoFault | AtRename(index: nat) | AtTruncate | AtPermissions

  predicate Due(files: Files, maxBytes: nat, maxFiles: nat) {
    maxBytes != 0 && maxFiles != 0 && 0 in files && |files[0]| >= maxBytes
  }

  // ----- the directory after some renames -----

  /** Which file is found at number j once the renames with index above i have been tried. */
  ghost function Origin(files: Files, maxFiles: nat, i: int, j: nat): Option<nat> {
    if i + 1 < j <= maxFiles && j - 1 in files then Some(j - 1)
    else if i < j < maxFiles then None
    else if j in files then Some(j)
    else None
  }

  /** The target, if there is one, is replaced by file i, if there is one. */
  function Renamed(now: Files, i: nat): Files {
    if i in now then now[i + 1 := now[i]] - {i} else now
  }

  /** The directory after the renames from index maxFiles - 1 down to i + 1. */
  function Moved(files: Files, maxFiles: nat, i: int): Files
    requires i >= -1
    decreases maxFiles - i
  {
    if i >= maxFiles - 1 then files else Renamed(Moved(files, maxFiles, i + 1), i + 1)
  }

  /** Where every file is found then. */
  lemma {:induction false} MovedAt(files: Files, maxFiles: nat, i: int, j: nat)
    requires i >= -1
    ensures match Origin(files, maxFiles, i, j)
            case None => j !in Moved(files, maxFiles, i)
            case Some(k) => k in files && j in Moved(files, maxFiles, i) && Moved(files, maxFiles, i)[j] == files[k]
    decreases maxFiles - i
  {
    if i < maxFiles - 1 {
      MovedAt(files, maxFiles, i + 1, j);
      MovedAt(files, maxFiles, i + 1, i + 1);
    }
  }

  /** After the loop `.1` is free. */
  lemma FirstIsFree(files: Files, maxFiles: nat)
    requires maxFiles >= 2
    ensures 1 !in Moved(files, maxFiles, 0)
  {
    MovedAt(files, maxFiles, 0, 1);
  }

  // ----- the rotation -----

  ghost predicate RenameFails(files: Files, maxFiles: nat, fault: Fault) {
    fault.AtRename? && fault.index < maxFiles && fault.index in files
  }

  /** The directory after the renames: shifted by one, or left where a rename failed, the
      target of that rename already removed. */
  ghost function Shifted(files: Files, maxFiles: nat, fault: Fault): Files {
    if RenameFails(files, maxFiles, fault) then Moved(files, maxFiles, fault.index) - {fault.index + 1}
    else Moved(files, maxFiles, -1)
  }

  /** The directory after a call: untouched, truncated or shifted. */
  ghost function After(files: Files, maxBytes: nat, maxFiles: nat, fault: Fault): Files {
    if !Due(files, maxBytes, maxFiles) then files
    else if maxFiles == 1 then if fault.AtTruncate? then files else files[0 := []]
    else Shifted(files, maxFiles, fault)
  }

  ghost predicate Succeeds(files: Files, maxBytes: nat, maxFiles: nat, fault: Fault) {
    Due(files, maxBytes, maxFiles) ==>
      if maxFiles == 1 then !fault.AtTruncate? else !RenameFails(files, maxFiles, fault) && !fault.AtPermissions?
  }

  /** File j of `after` is what file k of `files` was: absent, or of the same content. */
  ghost predicate Holds(after: Files, j: nat, files: Files, k: nat) {
    (j in after <==> k in files) && (j in after ==> after[j] == files[k])
  }

  /** What is found at number j after a rotation that has made the renames from number i on: below
      i what was there, at i nothing, above it the file from one number down. */
  ghost predicate RotatedAt(files: Files, maxFiles: nat, i: nat, after: Files, j: nat) {
    && (j < i || j > maxFiles ==> Holds(after, j, files, j))
    && (j == i ==> j !in after)
    && (i < j < maxFiles ==> Holds(after, j, files, j - 1))
    && (i < j == maxFiles ==> Holds(after, j, files, if j - 1 in files then j - 1 else j))
  }

  ghost predicate Rotated(files: Files, maxFiles: nat, i: nat, after: Files) {
    forall j: nat :: RotatedAt(files, maxFiles, i, after, j)
  }

  lemma CompleteRotates(files: Files, maxFiles: nat)
    requires maxFiles >= 2
    ensures Rotated(files, maxFiles, 0, Moved(files, maxFiles, -1))
  {
    forall j: nat ensures RotatedAt(files, maxFiles, 0, Moved(files, maxFiles, -1), j) {
      MovedAt(files, maxFiles, -1, j);
    }
  }

  lemma BrokenOffRotates(files: Files, maxFiles: nat, i: nat)
    requires maxFiles >= 2 && i < maxFiles
    ensures Rotated(files, maxFiles, i + 1, Moved(files, maxFiles, i) - {i + 1})
  {
    var target, after := i + 1, Moved(files, maxFiles, i) - {i + 1};
    forall j: nat ensures RotatedAt(files, maxFiles, target, after, j) {
      MovedAt(files, maxFiles, i, j);
    }
  }

  /** A call does nothing unless there is a base file, not smaller than the limit, and both
      limits are positive. */
  lemma IdleExactly(files: Files, maxBytes: nat, maxFiles: nat, fault: Fault)
    ensures maxBytes == 0 || maxFiles == 0 || 0 !in files || |files[0]| < maxBytes ==>
      After(files, maxBytes, maxFiles, fault) == files && Succeeds(files, maxBytes, maxFiles, fault)
    ensures After(files, maxBytes, maxFiles, NoFault) == files
            ==> maxBytes == 0 || maxFiles == 0 || 0 !in files || |files[0]| < maxBytes
  {
    if Due(files, maxBytes, maxFiles) && maxFiles >= 2 {
      MovedAt(files, maxFiles, -1, 0);
    }
  }

  /** Otherwise a limit of one empties the base file; a larger one moves it to .1 and every
      file below the limit one number up, unless a rename fails. */
  lemma RotationExactly(files: Files, maxBytes: nat, maxFiles: nat, fault: Fault)
    requires maxBytes != 0 && maxFiles != 0 && 0 in files && |files[0]| >= maxBytes
    ensures var after, ok := After(files, maxBytes, maxFiles, fault), Succeeds(files, maxBytes, maxFiles, fault);
            if maxFiles == 1 then
              (ok <==> fault != AtTruncate) && after == if fault == AtTruncate then files else files[0 := []]
            else if fault.AtRename? && fault.index < maxFiles && fault.index in files then
              !ok && Rotated(files, maxFiles, fault.index + 1, after)
            else
              && (ok <==> fault != AtPermissions)
              && 0 !in after && 1 in after && after[1] == files[0] && Rotated(files, maxFiles, 0, after)
  {
    if maxFiles >= 2 {
      if RenameFails(files, maxFiles, fault) {
        BrokenOffRotates(files, maxFiles, fault.index);
      } else {
        CompleteRotates(files, maxFiles);
        assert RotatedAt(files, maxFiles, 0, Moved(files, maxFiles, -1), 0);
        assert RotatedAt(files, maxFiles, 0, Moved(files, maxFiles, -1), 1);
      }
    }
  }

  class LogDir {
    var files: Files

    constructor ()
      ensures files == map[]
    {
      files := map[];
    }

    method Append(data: Bytes)
      modifies this
      ensures files == AppendedTo(old(files), data)
      ensures files == old(files)[0 := if 0 in old(files) then old(files)[0] + data else data]
    {
      assert [] + data == data;
      files := files[0 := (if 0 in files then files[0] else []) + data];
    }

    /** Removes the target, if there is one, and renames file i to it, if there is one. */
    method TryRename(i: nat, fault: Fault) returns (ok: bool)
      modifies this
      ensures ok <==> !(i in old(files) && fault == AtRename(i))
      ensures files == if ok then Renamed(old(files), i) else old(files) - {i + 1}
    {
      if i in files {
        if i + 1 in files {
          files := files - {i + 1};
        }
        if fault == AtRename(i) {
          return false;
        }
        files := files[i + 1 := files[i]] - {i};
      }
      return true;
    }

    /** The loop over the numbers and the rename of the base file. */
    method Shift(maxFiles: nat, fault: Fault) returns (ok: bool)
      requires maxFiles >= 2 && 0 in files
      modifies this
      ensures ok <==> !RenameFails(old(files), maxFiles, fault)
      ensures files == Shifted(old(files), maxFiles, fault)
    {
      ghost var start := files;
      for index := maxFiles downto 1
        invariant files == Moved(start, maxFiles, index - 1)
        invariant RenameFails(start, maxFiles, fault) ==> fault.index < index
      {
        MovedAt(start, maxFiles, index, index);
        ok := TryRename(index, fault);
        if !ok {
          return;
        }
      }
      MovedAt(start, maxFiles, 0, 0);
      // The program first removes `.1` if it exists; the loop has always moved it away.
      FirstIsFree(start, maxFiles);
      assert 1 !in files;
      ok := TryRename(0, fault);
    }

    method RotateIfNeeded(maxBytes: nat, maxFiles: nat, fault: Fault) returns (ok: bool)
      modifies this
      ensures files == After(old(files), maxBytes, maxFiles, fault)
      ensures ok <==> Succeeds(old(files), maxBytes, maxFiles, fault)
    {
      if maxBytes == 0 || maxFiles == 0 || 0 !in files {
        return true;
      }
      var size := |files[0]|;
      if size < maxBytes {
        return true;
      }
      if maxFiles > 1 {
        ok := Shift(maxFiles, fault);
        ok := ok && !fault.AtPermissions?;
      } else {
        if fault.AtTruncate? {
          return false;
        }
        files := files[0 := []];
        return true;
      }
    }
  }

  function AppendedTo(files: Files, data: Bytes): Files {
    files[0 := Content(files, 0) + data]
  }

  // ----- reading the log back -----

  function Content(files: Files, j: nat): Bytes {
    if j in files then files[j] else []
  }

  /** Files hi, hi-1, ..., lo+1, the oldest first. */
  function ReadRange(files: Files, hi: int, lo: int): Bytes
    requires lo >= -1
    decreases hi - lo
  {
    if hi <= lo then [] else Content(files, hi) + ReadRange(files, hi - 1, lo)
  }

  /** All of the log: the rotated files from number hi down, then the base file. */
  function Read(files: Files, hi: nat): Bytes {
    ReadRange(files, hi, -1)
  }

  lemma {:induction false} RangeSplit(files: Files, hi: int, mid: int, lo: int)
    requires -1 <= lo <= mid <= hi
    ensures ReadRange(files, hi, lo) == ReadRange(files, hi, mid) + ReadRange(files, mid, lo)
    decreases hi - mid
  {
    if hi > mid {
      RangeSplit(files, hi - 1, mid, lo);
    }
  }

  ghost predicate SameAt(a: Files, b: Files, j: nat) {
    Content(a, j) == Content(b, j)
  }

  lemma {:induction false} RangeSame(a: Files, b: Files, hi: int, lo: int)
    requires lo >= -1 && forall j: nat | lo < j <= hi :: SameAt(a, b, j)
    ensures ReadRange(a, hi, lo) == ReadRange(b, hi, lo)
    decreases hi - lo
  {
    if hi > lo {
      assert SameAt(a, b, hi);
      RangeSame(a, b, hi - 1, lo);
    }
  }

  ghost predicate ShiftedAt(a: Files, b: Files, j: nat) {
    Content(a, j) == Content(b, j + 1)
  }

  lemma {:induction false} RangeShifted(a: Files, b: Files, hi: int, lo: int)
    requires -1 <= lo && forall j: nat | lo < j <= hi :: ShiftedAt(a, b, j)
    ensures ReadRange(b, hi + 1, lo + 1) == ReadRange(a, hi, lo)
    decreases hi - lo
  {
    if hi > lo {
      assert ShiftedAt(a, b, hi);
      RangeShifted(a, b, hi - 1, lo);
    }
  }

  /** The content that ends up at the limit. */
  function AtLimit(files: Files, maxFiles: nat): Bytes {
    Content(files, if maxFiles - 1 in files then maxFiles - 1 else maxFiles)
  }

  /** The contents after the renames above i, file by file. */
  lemma MovedContents(files: Files, maxFiles: nat, i: int)
    requires maxFiles >= 2 && -1 <= i < maxFiles - 1
    ensures var now := Moved(files, maxFiles, i);
            && (forall j: nat | j > maxFiles :: SameAt(files, now, j))
            && (forall j: nat | i < j < maxFiles - 1 :: ShiftedAt(files, now, j))
            && Content(now, i + 1) == []
            && (forall j: nat | j <= i :: SameAt(files, now, j))
            && Content(now, maxFiles) == AtLimit(files, maxFiles)
  {
    var now := Moved(files, maxFiles, i);
    forall j: nat | j > maxFiles || j <= i ensures SameAt(files, now, j) { MovedAt(files, maxFiles, i, j); }
    forall j: nat | i < j < maxFiles - 1 ensures ShiftedAt(files, now, j) { MovedAt(files, maxFiles, i, j + 1); }
    MovedAt(files, maxFiles, i, i + 1);
    MovedAt(files, maxFiles, i, maxFiles);
  }

  lemma RangeSkips(files: Files, hi: int, i: int)
    requires -1 <= i < hi && Content(files, i + 1) == []
    ensures ReadRange(files, hi, -1) == ReadRange(files, hi, i + 1) + ReadRange(files, i, -1)
  {
    RangeSplit(files, hi, i + 1, -1);
    var rest := ReadRange(files, i, -1);
    assert ReadRange(files, i + 1, -1) == [] + rest == rest;
  }

  lemma MovedBelow(files: Files, maxFiles: nat, i: int)
    requires maxFiles >= 2 && -1 <= i < maxFiles - 1
    ensures ReadRange(Moved(files, maxFiles, i), maxFiles - 1, -1) == ReadRange(files, maxFiles - 2, -1)
  {
    var now := Moved(files, maxFiles, i);
    MovedContents(files, maxFiles, i);
    RangeShifted(files, now, maxFiles - 2, i);
    RangeSame(files, now, i, -1);
    RangeSkips(now, maxFiles - 1, i);
    RangeSplit(files, maxFiles - 2, i, -1);
  }

  /** A rotation with that limit gives up the file numbered with it, if the one below it moves
      there. */
  predicate Drops(files: Files, maxFiles: nat) {
    maxFiles - 1 in files && maxFiles in files
  }

  ghost function Kept(files: Files, maxFiles: nat): Files {
    if Drops(files, maxFiles) then files - {maxFiles} else files
  }

  lemma ReadAround(files: Files, hi: nat, n: nat)
    requires 2 <= n <= hi
    ensures Read(files, hi) == ReadRange(files, hi, n) + (Content(files, n) + ReadRange(files, n - 1, -1))
    ensures ReadRange(files, n - 1, -1) == Content(files, n - 1) + ReadRange(files, n - 2, -1)
  {
    RangeSplit(files, hi, n, -1);
  }

  lemma KeptBelow(files: Files, maxFiles: nat)
    requires maxFiles >= 2
    ensures var kept := Kept(files, maxFiles);
            Content(kept, maxFiles) + (Content(kept, maxFiles - 1) + ReadRange(kept, maxFiles - 2, -1))
            == AtLimit(files, maxFiles) + ReadRange(files, maxFiles - 2, -1)
  {
    var kept := Kept(files, maxFiles);
    forall j: nat | j <= maxFiles - 2 ensures SameAt(files, kept, j) {}
    RangeSame(files, kept, maxFiles - 2, -1);
    var rest := ReadRange(files, maxFiles - 2, -1);
    if maxFiles - 1 in files {
      assert Content(kept, maxFiles) == [] && [] + (files[maxFiles - 1] + rest) == files[maxFiles - 1] + rest;
    } else {
      assert Content(kept, maxFiles - 1) == [] && [] + rest == rest;
    }
  }

  lemma KeptReads(files: Files, maxFiles: nat, hi: nat)
    requires 2 <= maxFiles <= hi
    ensures Read(Kept(files, maxFiles), hi)
            == ReadRange(files, hi, maxFiles) + (AtLimit(files, maxFiles) + ReadRange(files, maxFiles - 2, -1))
  {
    var kept := Kept(files, maxFiles);
    forall j: nat | j > maxFiles ensures SameAt(files, kept, j) {}
    RangeSame(files, kept, hi, maxFiles);
    ReadAround(kept, hi, maxFiles);
    KeptBelow(files, maxFiles);
  }

  lemma MovedReads(files: Files, maxFiles: nat, i: int, hi: nat)
    requires maxFiles >= 2 && -1 <= i < maxFiles - 1 && hi >= maxFiles
    ensures Read(Moved(files, maxFiles, i), hi)
            == ReadRange(files, hi, maxFiles) + (AtLimit(files, maxFiles) + ReadRange(files, maxFiles - 2, -1))
  {
    var now := Moved(files, maxFiles, i);
    MovedContents(files, maxFiles, i);
    RangeSame(files, now, hi, maxFiles);
    ReadAround(now, hi, maxFiles);
    MovedBelow(files, maxFiles, i);
  }

  lemma BrokenOff(files: Files, maxFiles: nat, i: nat)
    requires maxFiles >= 2 && i < maxFiles && i in files
    ensures Moved(files, maxFiles, i) - {i + 1}
            == if i < maxFiles - 1 then Moved(files, maxFiles, i) else Kept(files, maxFiles)
  {
    MovedAt(files, maxFiles, i, i + 1);
  }

  /** What is read after a rotation with a limit of at least two, complete or broken off at any
      rename: the log before without the file that is given up, in the same order. */
  lemma RotationReads(files: Files, maxFiles: nat, fault: Fault, hi: nat)
    requires 2 <= maxFiles <= hi
    ensures Read(Shifted(files, maxFiles, fault), hi) == Read(Kept(files, maxFiles), hi)
  {
    KeptReads(files, maxFiles, hi);
    if RenameFails(files, maxFiles, fault) {
      BrokenOff(files, maxFiles, fault.index);
      if fault.index < maxFiles - 1 {
        MovedReads(files, maxFiles, fault.index, hi);
      }
    } else {
      MovedReads(files, maxFiles, -1, hi);
    }
  }

  // ----- numbering -----

  /** The rotated files are exactly .1 to .j. */
  ghost predicate GapFree(files: Files, j: nat) {
    forall i: nat | i >= 1 :: i in files <==> i <= j
  }

  /** No file has a number above n. */
  ghost predicate UpTo(files: Files, n: nat) {
    forall j | j in files :: j <= n
  }

  function TopAfter(files: Files, top: nat, maxBytes: nat, maxFiles: nat): nat {
    if Due(files, maxBytes, maxFiles) && 2 <= maxFiles && top < maxFiles then top + 1 else top
  }

  /** Every completed rotation of a gap-free directory keeps it gap-free. */
  lemma RotationKeepsGapFree(files: Files, j: nat, maxBytes: nat, maxFiles: nat, fault: Fault)
    requires GapFree(files, j) && !RenameFails(files, maxFiles, fault)
    ensures GapFree(After(files, maxBytes, maxFiles, fault), TopAfter(files, j, maxBytes, maxFiles))
  {
    if Due(files, maxBytes, maxFiles) && maxFiles >= 2 {
      forall i: nat | i >= 1
        ensures i in Moved(files, maxFiles, -1) <==> i <= TopAfter(files, j, maxBytes, maxFiles) {
        MovedAt(files, maxFiles, -1, i);
      }
    }
  }

  lemma RotationKeepsUpTo(files: Files, n: nat, maxBytes: nat, maxFiles: nat, fault: Fault)
    requires UpTo(files, n)
    ensures UpTo(After(files, maxBytes, maxFiles, fault), TopAfter(files, n, maxBytes, maxFiles))
  {
    var after := After(files, maxBytes, maxFiles, fault);
    forall j | j in after ensures j <= TopAfter(files, n, maxBytes, maxFiles) {
      if Due(files, maxBytes, maxFiles) && maxFiles >= 2 {
        MovedAt(files, maxFiles, -1, j);
        if RenameFails(files, maxFiles, fault) {
          MovedAt(files, maxFiles, fault.index, j);
        }
      }
    }
  }

  lemma NumbersAfterFailure(files: Files, j: nat, maxFiles: nat, i: nat, k: nat)
    requires GapFree(files, j) && i < maxFiles && i <= j && maxFiles >= 2 && i in files
    ensures var after := Shifted(files, maxFiles, AtRename(i));
            && (1 <= k <= i ==> k in after) && i + 1 !in after
            && (i + 1 < maxFiles && i < j ==> i + 2 in after)
            && (i + 1 == maxFiles < j ==> j in after)
            && (k > i + 1 && k in after ==> i < j && (i + 1 < maxFiles || maxFiles < j))
  {
    MovedAt(files, maxFiles, i, k);
    MovedAt(files, maxFiles, i, j);
    MovedAt(files, maxFiles, i, i + 2);
  }

  /** A rename that fails leaves a gap exactly when a file with a higher number is left. */
  lemma FailedRenameGapExactly(files: Files, j: nat, maxFiles: nat, i: nat)
    requires GapFree(files, j) && i < maxFiles && i <= j && maxFiles >= 2 && i in files
    ensures (exists n: nat :: GapFree(Shifted(files, maxFiles, AtRename(i)), n))
            <==> j == i || (i + 1 == maxFiles && j <= maxFiles)
  {
    var after := Shifted(files, maxFiles, AtRename(i));
    forall k: nat ensures 1 <= k <= i ==> k in after
                  ensures i + 1 !in after
                  ensures i + 1 < maxFiles && i < j ==> i + 2 in after
                  ensures i + 1 == maxFiles < j ==> j in after
                  ensures k > i + 1 && k in after ==> i < j && (i + 1 < maxFiles || maxFiles < j) {
      NumbersAfterFailure(files, j, maxFiles, i, k);
    }
    if j == i || (i + 1 == maxFiles && j <= maxFiles) {
      assert GapFree(after, i);
    }
  }

  // ----- what a call gives up -----

  /** The limit of a call is not below the highest number in use; a limit of one keeps no
      rotated file. */
  predicate Fits(maxFiles: nat, top: nat) {
    if maxFiles == 1 then top == 0 else top <= maxFiles
  }

  /** The number of the file that a due call may give up. */
  function Victim(maxFiles: nat): nat {
    if maxFiles == 1 then 0 else maxFiles
  }

  /** The content of file k has a place after a completed call. */
  ghost predicate Survives(files: Files, maxFiles: nat, k: nat) {
    if maxFiles == 1 then k in files && k != 0
    else exists j: nat :: Origin(files, maxFiles, -1, j) == Some(k)
  }

  lemma SurvivesExactly(files: Files, j: nat, maxFiles: nat, k: nat)
    requires GapFree(files, j) && 0 in files && maxFiles >= 1
    ensures Survives(files, maxFiles, k) <==> k <= j && k != Victim(maxFiles)
  {
    if maxFiles >= 2 && k <= j {
      if k < maxFiles {
        assert Origin(files, maxFiles, -1, k + 1) == Some(k);
      } else if k > maxFiles {
        assert Origin(files, maxFiles, -1, k) == Some(k);
      }
    }
  }

  /** A completed rotation of a gap-free directory drops at most one file, and it spares every
      file but the oldest exactly when the limit fits. */
  lemma RotationDropsOldestExactly(files: Files, j: nat, maxFiles: nat)
    requires GapFree(files, j) && 0 in files && maxFiles >= 1
    ensures (forall k: nat | k < j :: Survives(files, maxFiles, k)) <==> Fits(maxFiles, j)
    ensures forall k: nat | k <= j && k != Victim(maxFiles) :: Survives(files, maxFiles, k)
  {
    forall k: nat | k <= j ensures Survives(files, maxFiles, k) <==> k != Victim(maxFiles) {
      SurvivesExactly(files, j, maxFiles, k);
    }
    if !Fits(maxFiles, j) {
      assert !Survives(files, maxFiles, Victim(maxFiles));
    }
  }

  // ----- runs -----

  datatype Step = Append(data: Bytes) | Rotate(maxBytes: nat, maxFiles: nat, fault: Fault)

  /** The directory, a bound on the numbers in it, and everything ever appended. */
  datatype State = State(files: Files, top: nat, appended: Bytes)

  ghost function Next(s: State, step: Step): State {
    match step
    case Append(data) => State(AppendedTo(s.files, data), s.top, s.appended + data)
    case Rotate(maxBytes, maxFiles, fault) =>
      State(After(s.files, maxBytes, maxFiles, fault), TopAfter(s.files, s.top, maxBytes, maxFiles), s.appended)
  }

  ghost function Run(steps: seq<Step>): State {
    if steps == [] then State(map[], 0, []) else Next(Run(steps[..|steps| - 1]), steps[|steps| - 1])
  }

  ghost predicate AllFit(steps: seq<Step>) {
    steps != [] ==>
      var front, last := steps[..|steps| - 1], steps[|steps| - 1];
      && AllFit(front)
      && (last.Rotate? && Due(Run(front).files, last.maxBytes, last.maxFiles) ==> Fits(last.maxFiles, Run(front).top))
  }

  ghost predicate NoneFails(steps: seq<Step>) {
    forall i | 0 <= i < |steps| && steps[i].Rotate? :: !steps[i].fault.AtRename?
  }

  ghost predicate IsSuffix(tail: Bytes, whole: Bytes) {
    |tail| <= |whole| && whole[|whole| - |tail|..] == tail
  }

  lemma SuffixPush(a: Bytes, b: Bytes, data: Bytes)
    requires IsSuffix(a, b)
    ensures IsSuffix(a + data, b + data)
  {
    assert (b + data)[|b + data| - |a + data|..] == b[|b| - |a|..] + data;
  }

  lemma SuffixTrans(a: Bytes, b: Bytes, c: Bytes)
    requires IsSuffix(a, b) && IsSuffix(b, c)
    ensures IsSuffix(a, c)
  {
    assert c[|c| - |a|..] == c[|c| - |b|..][|b| - |a|..];
  }

  lemma ReadEndsWithBase(files: Files, hi: nat)
    ensures Read(files, hi) == ReadRange(files, hi, 0) + Content(files, 0)
  {
    RangeSplit(files, hi, 0, -1);
    assert ReadRange(files, 0, -1) == Content(files, 0) + ReadRange(files, -1, -1);
  }

  lemma AppendReads(files: Files, hi: nat, data: Bytes)
    ensures Read(AppendedTo(files, data), hi) == Read(files, hi) + data
  {
    var after := AppendedTo(files, data);
    forall j: nat | j > 0 ensures SameAt(files, after, j) {}
    RangeSame(files, after, hi, 0);
    ReadEndsWithBase(files, hi);
    ReadEndsWithBase(after, hi);
  }

  /** Numbers above the highest one in use read nothing. */
  lemma {:induction false} ReadAbove(files: Files, n: nat, hi: nat)
    requires UpTo(files, n) && n <= hi
    ensures Read(files, hi) == Read(files, n)
  {
    RangeSplit(files, hi, n, -1);
    NothingAbove(files, n, hi);
  }

  lemma {:induction false} NothingAbove(files: Files, n: nat, hi: nat)
    requires UpTo(files, n) && n <= hi
    ensures ReadRange(files, hi, n) == []
  {
    if n < hi {
      NothingAbove(files, n, hi - 1);
    }
  }

  /** Without its highest number a directory reads as a suffix. */
  lemma DropTopSuffix(files: Files, n: nat)
    requires UpTo(files, n)
    ensures IsSuffix(Read(files - {n}, n), Read(files, n))
  {
    var kept := files - {n};
    forall j: nat | j < n ensures SameAt(files, kept, j) {}
    RangeSame(files, kept, n - 1, -1);
    assert Read(files, n) == Content(files, n) + ReadRange(files, n - 1, -1);
    assert Read(kept, n) == ReadRange(kept, n - 1, -1);
  }

  /** A call whose limit fits, complete or broken off, leaves a log that reads as a suffix of
      the log before. */
  lemma RotationReadsSuffix(files: Files, top: nat, maxBytes: nat, maxFiles: nat, fault: Fault)
    requires UpTo(files, top) && (Due(files, maxBytes, maxFiles) ==> Fits(maxFiles, top))
    ensures IsSuffix(Read(After(files, maxBytes, maxFiles, fault), TopAfter(files, top, maxBytes, maxFiles)),
            Read(files, top))
  {
    if Due(files, maxBytes, maxFiles) {
      if maxFiles == 1 {
        assert Read(files[0 := []], 0) == [];
      } else {
        var after, n := After(files, maxBytes, maxFiles, fault), TopAfter(files, top, maxBytes, maxFiles);
        RotationKeepsUpTo(files, top, maxBytes, maxFiles, fault);
        RotationReads(files, maxFiles, fault, maxFiles);
        ReadAbove(after, n, maxFiles);
        ReadAbove(files, top, maxFiles);
        DropTopSuffix(files, maxFiles);
      }
    }
  }

  lemma {:induction false} RunIsUpTo(steps: seq<Step>)
    ensures UpTo(Run(steps).files, Run(steps).top)
  {
    if steps == [] {
    } else {
      var before := Run(steps[..|steps| - 1]);
      RunIsUpTo(steps[..|steps| - 1]);
      match steps[|steps| - 1]
      case Append(_) =>
      case Rotate(maxBytes, maxFiles, fault) => RotationKeepsUpTo(before.files, before.top, maxBytes, maxFiles, fault);
    }
  }

  /** In every run without failing renames from an empty directory the rotated files are
      numbered without a gap. */
  lemma {:induction false} RunIsGapFree(steps: seq<Step>)
    requires NoneFails(steps)
    ensures GapFree(Run(steps).files, Run(steps).top)
  {
    if steps == [] {
    } else {
      var before := Run(steps[..|steps| - 1]);
      RunIsGapFree(steps[..|steps| - 1]);
      match steps[|steps| - 1]
      case Append(_) =>
      case Rotate(maxBytes, maxFiles, fault) => RotationKeepsGapFree(before.files, before.top, maxBytes, maxFiles,
          fault);
    }
  }

  /** While every limit fits, reading the directory back gives a suffix of everything ever
      appended, whatever renames fail. */
  lemma {:induction false} RunReadsSuffix(steps: seq<Step>)
    requires AllFit(steps)
    ensures IsSuffix(Read(Run(steps).files, Run(steps).top), Run(steps).appended)
  {
    if steps == [] {
    } else {
      var before := Run(steps[..|steps| - 1]);
      RunReadsSuffix(steps[..|steps| - 1]);
      match steps[|steps| - 1]
      case Append(data) =>
        AppendReads(before.files, before.top, data);
        SuffixPush(Read(before.files, before.top), before.appended, data);
      case Rotate(maxBytes, maxFiles, fault) =>
        RunIsUpTo(steps[..|steps| - 1]);
        RotationReadsSuffix(before.files, before.top, maxBytes, maxFiles, fault);
        SuffixTrans(Read(Run(steps).files, Run(steps).top), Read(before.files, before.top), before.appended);
    }
  }

  /** The limits of a run are at least two and never shrink. */
  ghost predicate SteadyLimits(steps: seq<Step>) {
    && (forall i | 0 <= i < |steps| && steps[i].Rotate? :: steps[i].maxFiles >= 2)
    && (forall i, k | 0 <= i < k < |steps| && steps[i].Rotate? && steps[k].Rotate? ::
          steps[i].maxFiles <= steps[k].maxFiles)
  }

  lemma {:induction false} TopWithinLimit(steps: seq<Step>, k: nat, n: nat)
    requires SteadyLimits(steps) && n <= k < |steps| && steps[k].Rotate?
    ensures Run(steps[..n]).top <= steps[k].maxFiles
  {
    if n == 0 {
    } else {
      TopWithinLimit(steps, k, n - 1);
      assert steps[..n][..n - 1] == steps[..n - 1];
    }
  }

  /** With limits of at least two files that never shrink, every limit fits, so nothing but
      whole oldest files is ever lost. */
  lemma {:induction false} SteadyLimitsFit(steps: seq<Step>)
    requires SteadyLimits(steps)
    ensures AllFit(steps)
  {
    if steps == [] {
    } else {
      SteadyLimitsFit(steps[..|steps| - 1]);
      if steps[|steps| - 1].Rotate? {
        TopWithinLimit(steps, |steps| - 1, |steps| - 1);
      }
    }
  }

  // ----- runs whose limits do not fit -----

  lemma RunPush(steps: seq<Step>, step: Step)
    ensures Run(steps + [step]) == Next(Run(steps), step)
  {
    assert (steps + [step])[..|steps|] == steps;
  }

  /** now is the directory that a shift of files leaves. */
  ghost predicate IsShifted(files: Files, maxFiles: nat, now: Files) {
    forall j: nat ::
      match Origin(files, maxFiles, -1, j)
      case None => j !in now
      case Some(k) => k in files && j in now && now[j] == files[k]
  }

  lemma ShiftIs(files: Files, maxFiles: nat, now: Files)
    requires IsShifted(files, maxFiles, now)
    ensures Moved(files, maxFiles, -1) == now
  {
    forall j: nat ensures j in Moved(files, maxFiles, -1) <==> j in now
                  ensures j in now ==> j in Moved(files, maxFiles, -1) && Moved(files, maxFiles, -1)[j] == now[j] {
      MovedAt(files, maxFiles, -1, j);
    }
  }

  /** One append to an absent base file and one rotation. */
  lemma Filled(steps: seq<Step>, x: Bytes, maxFiles: nat, now: Files)
    requires x != [] && 0 !in Run(steps).files && maxFiles >= 2
    requires IsShifted(Run(steps).files[0 := x], maxFiles, now)
    ensures var end, before := Run(steps + [Append(x)] + [Rotate(1, maxFiles, NoFault)]), Run(steps);
            && end.files == now && end.appended == before.appended + x
            && end.top == if before.top < maxFiles then before.top + 1 else before.top
  {
    RunPush(steps, Append(x));
    RunPush(steps + [Append(x)], Rotate(1, maxFiles, NoFault));
    assert [] + x == x;
    ShiftIs(Run(steps).files[0 := x], maxFiles, now);
  }

  function Fill(steps: seq<Step>, x: Bytes): seq<Step> {
    steps + [Append(x)] + [Rotate(1, 3, NoFault)]
  }

  lemma FillOne(a: Bytes)
    requires a != []
    ensures Run(Fill([], a)) == State(map[1 := a], 1, a)
  {
    Filled([], a, 3, map[1 := a]);
    assert [] + a == a;
  }

  lemma FillTwo(a: Bytes, b: Bytes)
    requires a != [] && b != []
    ensures Run(Fill(Fill([], a), b)) == State(map[1 := b, 2 := a], 2, a + b)
  {
    FillOne(a);
    Filled(Fill([], a), b, 3, map[1 := b, 2 := a]);
  }

  lemma FillThree(a: Bytes, b: Bytes, c: Bytes)
    requires a != [] && b != [] && c != []
    ensures Run(Fill(Fill(Fill([], a), b), c)) == State(map[1 := c, 2 := b, 3 := a], 3, a + b + c)
  {
    FillTwo(a, b);
    Filled(Fill(Fill([], a), b), c, 3, map[1 := c, 2 := b, 3 := a]);
  }

  /** Three rotations that keep three files, then one that keeps two. */
  function ShrinkingRun(a: Bytes, b: Bytes, c: Bytes, d: Bytes): seq<Step> {
    Fill(Fill(Fill([], a), b), c) + [Append(d)] + [Rotate(1, 2, NoFault)]
  }

  lemma ReadThree(files: Files)
    requires files.Keys == {1, 2, 3}
    ensures Read(files, 3) == files[3] + (files[2] + files[1])
  {
    assert ReadRange(files, 0, -1) == [];
    assert ReadRange(files, 1, -1) == files[1];
    assert ReadRange(files, 2, -1) == files[2] + files[1];
  }

  /** A shrinking limit drops a file from the middle of the log. */
  lemma ShrinkingLimitDropsMiddle(a: Bytes, b: Bytes, c: Bytes, d: Bytes)
    requires a != [] && b != [] && c != [] && d != []
    ensures var end := Run(ShrinkingRun(a, b, c, d));
            end.appended == a + b + c + d && Read(end.files, end.top) == a + (c + d)
  {
    FillThree(a, b, c);
    Filled(Fill(Fill(Fill([], a), b), c), d, 2, map[1 := d, 2 := c, 3 := a]);
    ReadThree(map[1 := d, 2 := c, 3 := a]);
  }

  lemma TailDiffers(tail: Bytes, whole: Bytes)
    requires 0 < |tail| <= |whole| && tail[0] != whole[|whole| - |tail|]
    ensures !IsSuffix(tail, whole)
  {
    assert whole[|whole| - |tail|..][0] == whole[|whole| - |tail|];
  }

  /** With four one-byte appends what is read back is no suffix of what was appended. */
  lemma ShrinkingLimitBreaksSuffix()
    ensures var end := Run(ShrinkingRun([1], [2], [3], [4])); !IsSuffix(Read(end.files, end.top), end.appended)
  {
    ShrinkingLimitDropsMiddle([1], [2], [3], [4]);
    TailDiffers([1] + ([3] + [4]), [1] + [2] + [3] + [4]);
  }

  lemma TruncateNewest(steps: seq<Step>, x: Bytes, a: Bytes)
    requires x != [] && Run(steps).top == 1 && Run(steps).files == map[1 := a]
    ensures var end := Run(steps + [Append(x)] + [Rotate(1, 1, NoFault)]);
            end.appended == Run(steps).appended + x && end.top == 1 && end.files == map[0 := [], 1 := a]
  {
    RunPush(steps, Append(x));
    RunPush(steps + [Append(x)], Rotate(1, 1, NoFault));
    assert [] + x == x;
  }

  /** A limit of one drops the newest file while an older one stays. */
  lemma LimitOfOneDropsNewest(a: Bytes, b: Bytes)
    requires a != [] && b != []
    ensures var end := Run(Fill([], a) + [Append(b)] + [Rotate(1, 1, NoFault)]);
            end.appended == a + b && Read(end.files, end.top) == a
  {
    FillOne(a);
    TruncateNewest(Fill([], a), b, a);
    var files: Files := map[0 := [], 1 := a];
    assert ReadRange(files, 0, -1) == [] && ReadRange(files, 1, -1) == a;
  }
}
