/**
 * The `_JEXEC` guard rule (PH2): every PHP file of an extension must stop
 * direct access with a line such as `defined('_JEXEC') or die;`, unless it
 * holds no code at all or only declares a class.
 *
 * The file is given as its lines (as `file()` returns them, line endings
 * included) and the rule's `constants` parameter as the raw comma-separated
 * string.
 */
module JexecRule {
  import opened Wrappers
  import opened PhpStrings
  import opened Diagnostics

  /** The words that frame the guarded constant. */
  const DefinedWord := "defined"
  const DieWord := "die"

  /** A line the scan passes over: blank, or only a PHP open or close tag once trimmed. */
  predicate IsSkipped(line: string) {
    var t := Trim(line);
    t == "" || t == "<?php" || t == "?>"
  }

  /** A line that counts as code: not skipped, and not starting like a comment (`/` or `*`). */
  predicate IsCode(line: string) {
    !IsSkipped(line) && Trim(line)[0] != '/' && Trim(line)[0] != '*'
  }

  /** The constant names to look for: the comma-separated pieces, each trimmed. */
  function Constants(defines: string): seq<string> {
    seq(|Split(defines, ',')|, i requires 0 <= i < |Split(defines, ',')| => Trim(Split(defines, ',')[i]))
  }

  /**
   * What the constants look like: none holds a comma, none starts or ends
   * with a trim character, and each is a contiguous part of its piece of
   * the setting.
   */
  lemma ConstantsClean(defines: string)
    ensures var cs := Constants(defines);
      forall i :: 0 <= i < |cs| ==>
        && ',' !in cs[i]
        && (cs[i] == [] || (!IsTrimmed(cs[i][0]) && !IsTrimmed(cs[i][|cs[i]| - 1])))
        && exists a :: OccursAt(Split(defines, ',')[i], cs[i], a)
  {
    var pieces := Split(defines, ',');
    var cs := Constants(defines);
    SplitPieces(defines, ',');
    forall i | 0 <= i < |cs|
      ensures && ',' !in cs[i]
        && (cs[i] == [] || (!IsTrimmed(cs[i][0]) && !IsTrimmed(cs[i][|cs[i]| - 1])))
        && exists a :: OccursAt(pieces[i], cs[i], a)
    {
      assert pieces[i] in pieces;
      TrimmedPiece(pieces[i]);
    }
  }

  /** One trimmed piece: a comma-free, tidy part of the piece. */
  lemma TrimmedPiece(p: string)
    requires ',' !in p
    ensures ',' !in Trim(p)
    ensures Trim(p) == [] || (!IsTrimmed(Trim(p)[0]) && !IsTrimmed(Trim(p)[|Trim(p)| - 1]))
    ensures exists a :: OccursAt(p, Trim(p), a)
  {
    var c := Trim(p);
    TrimMiddle(p);
    var a := |p| - |TrimStart(p)|;
    assert OccursAt(p, c, a);
    forall k | 0 <= k < |c| ensures c[k] != ',' {
      assert c[k] == p[a + k];
    }
  }

  /**
   * A setting written as tidy names joined by commas yields exactly those
   * names: `explode` and `trim` give back what `implode` put together.
   */
  lemma ConstantsRoundTrip(names: seq<string>)
    requires |names| >= 1
    requires forall c :: c in names ==> ',' !in c && (c == [] || (!IsTrimmed(c[0]) && !IsTrimmed(c[|c| - 1])))
    ensures Constants(Join(names, ',')) == names
  {
    SplitJoin(names, ',');
    var cs := Constants(Join(names, ','));
    forall i | 0 <= i < |names| ensures cs[i] == names[i] {
      assert names[i] in names;
      TrimClean(names[i]);
    }
  }

  /**
   * The line guards with constant `c`: the first `defined` (any case) comes
   * strictly before the first `c` (exact case), which comes strictly before
   * the first `die` (any case).
   */
  predicate Guards(line: string, c: string) {
    var d := IndexOfIgnoringCase(line, DefinedWord);
    var k := IndexOf(line, c);
    var e := IndexOfIgnoringCase(line, DieWord);
    d.Some? && k.Some? && e.Some? && d.value < k.value < e.value
  }

  /** The line is a guard line for one of the constants. */
  predicate IsGuardLine(line: string, constants: seq<string>) {
    !IsSkipped(line) && exists m :: 0 <= m < |constants| && Guards(line, constants[m])
  }

  /**
   * What the scan accepts: some line is a guard line, or no line is code
   * (a file of comments and tags needs no guard).
   */
  predicate Accepts(lines: seq<string>, constants: seq<string>) {
    (exists i :: 0 <= i < |lines| && IsGuardLine(lines[i], constants))
    || (forall i :: 0 <= i < |lines| ==> !IsCode(lines[i]))
  }

  /**
   * The per-line part of `find`: look for `defined` and `die` (any case),
   * then try each trimmed constant in turn.
   */
  method ScanLine(line: string, pieces: seq<string>) returns (hit: bool)
    ensures hit <==> exists m :: 0 <= m < |pieces| && Guards(line, Trim(pieces[m]))
  {
    var d := IndexOfIgnoringCase(line, DefinedWord);
    if d.None? {
      return false;
    }
    var e := IndexOfIgnoringCase(line, DieWord);
    if e.None? {
      return false;
    }
    var k := 0;
    while k < |pieces|
      invariant 0 <= k <= |pieces|
      invariant forall m :: 0 <= m < k ==> !Guards(line, Trim(pieces[m]))
    {
      var define := Trim(pieces[k]);
      var c := IndexOf(line, define);
      if c.Some? && c.value > d.value && e.value > c.value {
        return true;
      }
      k := k + 1;
    }
    return false;
  }

  /** Trying the raw pieces trimmed is trying the constants. */
  lemma ScanLineConstants(line: string, defines: string, pieces: seq<string>)
    requires pieces == Split(defines, ',')
    ensures IsGuardLine(line, Constants(defines)) <==>
      !IsSkipped(line) && exists m :: 0 <= m < |pieces| && Guards(line, Trim(pieces[m]))
  {
    var cs := Constants(defines);
    assert |cs| == |pieces|;
    forall m | 0 <= m < |pieces| ensures cs[m] == Trim(pieces[m]) { }
  }

  /** Some line before `i` is code. */
  predicate CodeBefore(lines: seq<string>, i: int) {
    exists j :: 0 <= j < i && j < |lines| && IsCode(lines[j])
  }

  /** No line before `i` is a guard line. */
  predicate NoGuardBefore(lines: seq<string>, i: int, constants: seq<string>) {
    forall j :: 0 <= j < i && j < |lines| ==> !IsGuardLine(lines[j], constants)
  }

  /** Scanning one more line adds that line's code and guard verdicts. */
  lemma ScanStep(lines: seq<string>, i: int, constants: seq<string>)
    requires 0 <= i < |lines|
    ensures CodeBefore(lines, i + 1) <==> CodeBefore(lines, i) || IsCode(lines[i])
    ensures NoGuardBefore(lines, i + 1, constants) <==> NoGuardBefore(lines, i, constants) && !IsGuardLine(lines[i], constants)
  {
    if CodeBefore(lines, i + 1) && !IsCode(lines[i]) {
      var j :| 0 <= j < i + 1 && j < |lines| && IsCode(lines[j]);
      assert j < i;
    }
  }

  /**
   * `find($file)`: scans the lines in order, remembering whether code was
   * seen, and stops at the first guard line.
   */
  method Find(lines: seq<string>, defines: string) returns (found: bool)
    ensures found == Accepts(lines, Constants(defines))
  {
    var pieces := Split(defines, ',');
    ghost var cs := Constants(defines);
    var hasCode := false;
    var i := 0;
    while i < |lines|
      invariant 0 <= i <= |lines|
      invariant hasCode == CodeBefore(lines, i)
      invariant NoGuardBefore(lines, i, cs)
    {
      var line := lines[i];
      ScanStep(lines, i, cs);
      var t := Trim(line);
      if t == "" || t == "<?php" || t == "?>" {
        i := i + 1;
        continue;
      }
      if t[0] != '/' && t[0] != '*' {
        hasCode := true;
      }
      assert !IsSkipped(line);
      var hit := ScanLine(line, pieces);
      ScanLineConstants(line, defines, pieces);
      if hit {
        assert IsGuardLine(lines[i], cs);
        return true;
      }
      i := i + 1;
    }
    return !hasCode;
  }

  /** A PHP file of the extension: its lines and whether it only declares a class. */
  datatype PhpFile = PhpFile(lines: seq<string>, classOnly: bool)

  /** The file draws the not-found error: no guard is found and it is not a bare class declaration. */
  predicate MissesGuard(f: PhpFile, defines: string) {
    !Accepts(f.lines, Constants(defines)) && !f.classOnly
  }

  /** One report against one file, by its position in the scanned list. */
  datatype FileReport = FileReport(file: nat, report: Report)

  /** Some report in `reports` concerns file `i`. */
  predicate Reported(reports: seq<FileReport>, i: nat) {
    exists k :: 0 <= k < |reports| && reports[k].file == i
  }

  lemma ReportedAppend(reports: seq<FileReport>, r: FileReport, i: nat)
    ensures Reported(reports + [r], i) <==> Reported(reports, i) || r.file == i
  {
    var all := reports + [r];
    if Reported(reports, i) {
      var k :| 0 <= k < |reports| && reports[k].file == i;
      assert all[k] == reports[k];
    }
    if r.file == i {
      assert all[|reports|] == r;
    }
  }

  /**
   * `check()`: one JEXEC_NOT_FOUND error for each file that misses the
   * guard, in file order.
   */
  method Check(files: seq<PhpFile>, defines: string) returns (reports: seq<FileReport>)
    ensures forall k :: 0 <= k < |reports| ==> reports[k].report == Single(Error, JexecNotFound)
    ensures forall k, l :: 0 <= k < l < |reports| ==> reports[k].file < reports[l].file
    ensures forall i: nat :: i < |files| ==> (Reported(reports, i) <==> MissesGuard(files[i], defines))
    ensures forall k :: 0 <= k < |reports| ==> reports[k].file < |files|
  {
    reports := [];
    var i := 0;
    while i < |files|
      invariant 0 <= i <= |files|
      invariant forall k :: 0 <= k < |reports| ==> reports[k].report == Single(Error, JexecNotFound)
      invariant forall k :: 0 <= k < |reports| ==> reports[k].file < i
      invariant forall k, l :: 0 <= k < l < |reports| ==> reports[k].file < reports[l].file
      invariant forall j: nat :: j < i ==> (Reported(reports, j) <==> MissesGuard(files[j], defines))
    {
      var found := Find(files[i].lines, defines);
      var before := reports;
      if !found && !files[i].classOnly {
        reports := reports + [FileReport(i, Single(Error, JexecNotFound))];
        forall j: nat | j <= i ensures Reported(reports, j) <==> Reported(before, j) || j == i {
          ReportedAppend(before, FileReport(i, Single(Error, JexecNotFound)), j);
        }
      }
      i := i + 1;
    }
  }

  // ----- What the guard scan promises -----

  /** The guard words are already lower-case, so `stripos` looks for them as written. */
  lemma WordsAreLowerCase()
    ensures Lower(DefinedWord) == DefinedWord && Lower(DieWord) == DieWord
  {
    LowerKeepsLowerCase(DefinedWord);
    LowerKeepsLowerCase(DieWord);
  }

  /** An empty constant never guards: `strpos` finds it at 0, which cannot follow `defined`. */
  lemma EmptyConstantNeverGuards(line: string)
    ensures !Guards(line, "")
  {
    IndexOfFirst(line, "");
    assert OccursAt(line, "", 0);
  }

  /** A line without `defined`, or without `die`, in any case, guards with no constant. */
  lemma MissingWordNeverGuards(line: string, constants: seq<string>)
    requires (forall j :: !OccursAt(Lower(line), DefinedWord, j)) || (forall j :: !OccursAt(Lower(line), DieWord, j))
    ensures !IsGuardLine(line, constants)
  {
    WordsAreLowerCase();
    IndexOfIgnoringCaseFirst(line, DefinedWord);
    IndexOfIgnoringCaseFirst(line, DieWord);
  }

  /** A `die` at or before every occurrence of the constant rules the line out. */
  lemma DieBeforeConstantNeverGuards(line: string, c: string, e: nat)
    requires OccursAt(Lower(line), DieWord, e)
    requires forall k :: OccursAt(line, c, k) ==> e <= k
    ensures !Guards(line, c)
  {
    WordsAreLowerCase();
    IndexOfIgnoringCaseFirst(line, DieWord);
    IndexOfFirst(line, c);
  }

  /** A constant at or before every `defined` rules the line out for that constant. */
  lemma ConstantBeforeDefinedNeverGuards(line: string, c: string, k: nat)
    requires OccursAt(line, c, k)
    requires forall d :: OccursAt(Lower(line), DefinedWord, d) ==> k <= d
    ensures !Guards(line, c)
  {
    WordsAreLowerCase();
    IndexOfIgnoringCaseFirst(line, DefinedWord);
    IndexOfFirst(line, c);
  }

  /** Some line satisfies `p`. */
  predicate SomeLine(lines: seq<string>, p: string -> bool) {
    exists i :: 0 <= i < |lines| && p(lines[i])
  }

  /** Inserting a line that fails `p` does not change whether some line satisfies `p`. */
  lemma InsertFailing(before: seq<string>, line: string, after: seq<string>, p: string -> bool)
    requires !p(line)
    ensures SomeLine(before + [line] + after, p) == SomeLine(before + after, p)
  {
    var with := before + [line] + after;
    var without := before + after;
    var n := |before|;
    if SomeLine(with, p) {
      var i :| 0 <= i < |with| && p(with[i]);
      if i > n {
        assert with[i] == without[i - 1];
      } else {
        assert i < n && with[i] == without[i];
      }
    }
    if SomeLine(without, p) {
      var i :| 0 <= i < |without| && p(without[i]);
      if i >= n {
        assert with[i + 1] == without[i];
      } else {
        assert with[i] == without[i];
      }
    }
  }

  /** Blank and tag-only lines change nothing: inserting one anywhere keeps the verdict. */
  lemma SkippedLineIrrelevant(before: seq<string>, line: string, after: seq<string>, constants: seq<string>)
    requires IsSkipped(line)
    ensures Accepts(before + [line] + after, constants) == Accepts(before + after, constants)
  {
    var guard := l => IsGuardLine(l, constants);
    InsertFailing(before, line, after, guard);
    InsertFailing(before, line, after, IsCode);
    forall lines: seq<string> ensures Accepts(lines, constants) == (SomeLine(lines, guard) || !SomeLine(lines, IsCode)) {
      assert forall i :: 0 <= i < |lines| ==> guard(lines[i]) == IsGuardLine(lines[i], constants);
    }
  }
}

