/**
 * The classifier half of `detect_conflicts`: given the exit status and the
 * standard output of the dry-run merge, decide whether the report signals
 * conflicts and turn every "changed in both" line into a conflict record.
 */
module Conflicts {
  import opened PyStrings

  /** The kinds a conflict record may carry; the classifier only ever produces `Content`. */
  datatype ConflictType = Content | Rename | Delete

  /** One file in conflict: its repository-relative path and the kind of conflict. */
  datatype ConflictFile = ConflictFile(path: string, conflictType: ConflictType)

  datatype Option<T> = None | Some(value: T)

  /** The phrase a report line must start with to name a file changed on both sides. */
  const ChangedInBoth: string := "changed in both"

  /** The word whose presence, in any letter case, marks a report as conflicting. */
  const ConflictWord: string := "conflict"

  /** The gate: a non-zero exit status, or "conflict" somewhere in the lower-cased report. */
  predicate SignalsConflict(exitCode: int, stdout: string)
    ensures SignalsConflict(exitCode, stdout) <==>
      exitCode != 0 || exists i :: OccursAt(Lower(stdout), ConflictWord, i)
  {
    ContainsIff(Lower(stdout), ConflictWord);
    exitCode != 0 || Contains(Lower(stdout), ConflictWord)
  }

  /**
   * The per-line test: a line that starts with "changed in both" and splits
   * into at least four tokens names the file given by its last token.
   */
  function ConflictOfLine(line: string): (r: Option<ConflictFile>)
    ensures r.Some? <==> ChangedInBoth <= line && |Tokens(line)| >= 4
    ensures r.Some? ==> r.value.conflictType == Content && r.value.path in Tokens(line)
    ensures r.Some? ==> r.value.path != [] && NoSpace(r.value.path)
  {
    if ChangedInBoth <= line then
      var parts := Tokens(line);
      if |parts| >= 4 then Some(ConflictFile(parts[|parts| - 1], Content)) else None
    else None
  }

  /** The conflict records of a sequence of report lines, one per matching line, in line order. */
  function ConflictsOfLines(lines: seq<string>): (r: seq<ConflictFile>)
    ensures forall k :: 0 <= k < |r| ==> r[k].conflictType == Content
    ensures forall k :: 0 <= k < |r| ==> r[k].path != [] && NoSpace(r[k].path)
    decreases |lines|
  {
    if lines == [] then []
    else
      (match ConflictOfLine(lines[0]) case Some(c) => [c] case None => [])
      + ConflictsOfLines(lines[1..])
  }

  /** What the classifier returns for a dry-run merge that exited with `exitCode` and printed `stdout`. */
  function ReportConflicts(exitCode: int, stdout: string): (r: seq<ConflictFile>)
    ensures !SignalsConflict(exitCode, stdout) ==> r == []
    ensures |r| <= Count(stdout, '\n') + 1
  {
    if SignalsConflict(exitCode, stdout) then
      ConflictsOfLinesBound(SplitOn(stdout, '\n'));
      ConflictsOfLines(SplitOn(stdout, '\n'))
    else []
  }

  /**
   * The classification loop: when the gate passes, scan the report line by
   * line and append a record for every matching line.
   */
  method ClassifyMergeReport(exitCode: int, stdout: string) returns (conflicts: seq<ConflictFile>)
    ensures conflicts == ReportConflicts(exitCode, stdout)
  {
    conflicts := [];
    if exitCode != 0 || Contains(Lower(stdout), ConflictWord) {
      var lines := SplitOn(stdout, '\n');
      for i := 0 to |lines|
        invariant conflicts == ConflictsOfLines(lines[..i])
      {
        var line := lines[i];
        ConflictsOfLinesStep(lines, i);
        if ChangedInBoth <= line {
          var parts := Tokens(line);
          if |parts| >= 4 {
            conflicts := conflicts + [ConflictFile(parts[|parts| - 1], Content)];
          } else {
            assert ConflictOfLine(line).None?;
          }
        } else {
          assert ConflictOfLine(line).None?;
        }
      }
      assert lines[..|lines|] == lines;
    }
  }

  // ---------------------------------------------------------------------------
  // Properties of the classifier
  // ---------------------------------------------------------------------------

  /** Scanning a concatenation of line lists is scanning each in turn: records keep line order. */
  lemma {:induction false} ConflictsOfLinesAppend(a: seq<string>, b: seq<string>)
    ensures ConflictsOfLines(a + b) == ConflictsOfLines(a) + ConflictsOfLines(b)
    decreases |a|
  {
    if a == [] {
      assert a + b == b;
    } else {
      assert (a + b)[0] == a[0];
      assert (a + b)[1..] == a[1..] + b;
      ConflictsOfLinesAppend(a[1..], b);
    }
  }

  /** Scanning one more line appends that line's record, if it has one. */
  lemma ConflictsOfLinesStep(lines: seq<string>, i: int)
    requires 0 <= i < |lines|
    ensures ConflictOfLine(lines[i]).Some? ==>
      ConflictsOfLines(lines[..i + 1]) == ConflictsOfLines(lines[..i]) + [ConflictOfLine(lines[i]).value]
    ensures ConflictOfLine(lines[i]).None? ==>
      ConflictsOfLines(lines[..i + 1]) == ConflictsOfLines(lines[..i])
  {
    ConflictsOfLinesAppend(lines[..i], [lines[i]]);
    assert lines[..i + 1] == lines[..i] + [lines[i]];
  }

  /** There are never more records than lines. */
  lemma {:induction false} ConflictsOfLinesBound(lines: seq<string>)
    ensures |ConflictsOfLines(lines)| <= |lines|
    decreases |lines|
  {
    if lines != [] {
      ConflictsOfLinesBound(lines[1..]);
    }
  }

  /**
   * Every record comes from a matching line: that line starts with
   * "changed in both", has at least four tokens, and the record's path is its
   * last token, of content type.
   */
  lemma {:induction false} ConflictsOfLinesSound(lines: seq<string>, c: ConflictFile)
    requires c in ConflictsOfLines(lines)
    ensures exists k :: 0 <= k < |lines| && ConflictOfLine(lines[k]) == Some(c)
    ensures c.conflictType == Content
    decreases |lines|
  {
    if ConflictOfLine(lines[0]) == Some(c) {
      assert ConflictOfLine(lines[0]) == Some(c);
    } else {
      ConflictsOfLinesSound(lines[1..], c);
      var k :| 0 <= k < |lines[1..]| && ConflictOfLine(lines[1..][k]) == Some(c);
      assert lines[k + 1] == lines[1..][k];
    }
  }

  /** Every matching line yields its record. */
  lemma {:induction false} ConflictsOfLinesComplete(lines: seq<string>, k: int)
    requires 0 <= k < |lines| && ConflictOfLine(lines[k]).Some?
    ensures ConflictOfLine(lines[k]).value in ConflictsOfLines(lines)
    decreases |lines|
  {
    if k > 0 {
      assert lines[1..][k - 1] == lines[k];
      ConflictsOfLinesComplete(lines[1..], k - 1);
    }
  }

  /** A matching line's record: the path is the line's last token and a non-empty run of non-space characters. */
  lemma ConflictOfLineShape(line: string)
    requires ConflictOfLine(line).Some?
    ensures ChangedInBoth <= line && |Tokens(line)| >= 4
    ensures ConflictOfLine(line).value == ConflictFile(Tokens(line)[|Tokens(line)| - 1], Content)
    ensures ConflictOfLine(line).value.path != [] && NoSpace(ConflictOfLine(line).value.path)
  {
  }

  /** The path of a record ends its line, apart from trailing whitespace, and follows whitespace. */
  lemma ConflictPathEndsLine(line: string) returns (before: string, after: string)
    requires ConflictOfLine(line).Some?
    ensures EndsWithToken(line, before, ConflictOfLine(line).value.path, after)
  {
    before, after := LastTokenEndsText(line);
  }

  /** A clean report, exit status 0 and no "conflict" in any letter case, yields no records. */
  lemma CleanReportHasNoConflicts(stdout: string)
    requires !Contains(Lower(stdout), ConflictWord)
    ensures ReportConflicts(0, stdout) == []
  {
  }

  /** When the gate passes, the records are those of the report's lines, at most one per line. */
  lemma SignalledReportConflicts(exitCode: int, stdout: string)
    requires SignalsConflict(exitCode, stdout)
    ensures ReportConflicts(exitCode, stdout) == ConflictsOfLines(SplitOn(stdout, '\n'))
    ensures |ReportConflicts(exitCode, stdout)| <= Count(stdout, '\n') + 1
  {
    ConflictsOfLinesBound(SplitOn(stdout, '\n'));
  }

  /**
   * A failing merge whose report is one line "changed in both x <path>"
   * yields exactly one record, for that path.
   */
  lemma OneChangedInBothLine(exitCode: int, path: string)
    requires exitCode != 0
    requires path != [] && NoSpace(path)
    ensures ReportConflicts(exitCode, ChangedInBoth + " x " + path) == [ConflictFile(path, Content)]
  {
    var line := ChangedInBoth + " x " + path;
    ExampleLineTokens(path);
    ExampleLineHasNoNewline(path);
    SplitOnFree(line, '\n');
    assert ConflictsOfLines([line]) == [ConflictFile(path, Content)];
  }

  lemma ExampleLineTokens(path: string)
    requires path != [] && NoSpace(path)
    ensures Tokens(ChangedInBoth + " x " + path) == ["changed", "in", "both", "x", path]
  {
    ExampleLineWords(path);
    TokensOfFiveWords("changed", "in", "both", "x", path);
  }

  lemma ExampleLineWords(path: string)
    ensures ChangedInBoth + " x " + path == "changed" + " " + ("in" + " " + ("both" + " " + ("x" + " " + path)))
  {
  }

  lemma ExampleLineHasNoNewline(path: string)
    requires NoSpace(path)
    ensures '\n' !in ChangedInBoth + " x " + path
  {
    var head := ChangedInBoth + " x ";
    assert '\n' !in head;
    assert '\n' !in path by { assert IsSpace('\n'); }
    assert ChangedInBoth + " x " + path == head + path;
  }

  /**
   * The gate ignores letter case: a report that mentions any spelling of
   * "conflict" anywhere ("CONFLICT (content): ...", "Conflict", ...) passes it,
   * whatever the exit status.
   */
  lemma MentionOpensGate(exitCode: int, pre: string, w: string, post: string)
    requires Lower(w) == ConflictWord
    ensures SignalsConflict(exitCode, pre + w + post)
  {
    var s := pre + w + post;
    LowerAppend(pre + w, post);
    LowerAppend(pre, w);
    assert Lower(s) == Lower(pre) + ConflictWord + Lower(post);
    assert Lower(s)[|pre|..|pre| + |ConflictWord|] == ConflictWord;
    assert OccursAt(Lower(s), ConflictWord, |pre|);
  }

  /** The marker git prints for a conflicting file, in capitals, opens the gate even after a zero exit. */
  lemma ShoutedConflictOpensGate(pre: string, post: string)
    ensures SignalsConflict(0, pre + "CONFLICT" + post)
  {
    assert Lower("CONFLICT") == ConflictWord;
    MentionOpensGate(0, pre, "CONFLICT", post);
  }

  /**
   * The gate decides first: the same line in a report whose merge exited
   * with status 0 and that never says "conflict" yields nothing.
   */
  lemma UnsignalledLineIgnored()
    ensures ReportConflicts(0, "changed in both x a.txt") == []
  {
    var s := "changed in both x a.txt";
    assert 'f' !in Lower(s);
    MissingCharNotContained(Lower(s), ConflictWord, 3);
  }
}
