/**
 * The decision logic of the `cobol-blksize.insertJCL` command. The editor
 * supplies the selected text and the cursor's line; the answers the user
 * would give to the input boxes and the quick pick are parameters, `None`
 * standing for a dismissed prompt. The command either rewrites the block
 * size of an existing `BLKSIZE=` (quick mode) or inserts a fresh DD
 * statement at the cursor (full mode).
 */
module InsertCommand {
  import opened Wrappers
  import opened Decimal
  import opened Calculator
  import opened JclTemplate
  import opened KeywordScan

  /** A number accepted by the "positive number" prompt validation. */
  type Positive = n: nat | n >= 1 witness 1

  /** One of the four entries of the record-format quick pick. */
  type PickedFormat = s: string | s == "FB" || s == "FBS" || s == "VB" || s == "VBS" witness "FB"

  /** The user's answers: LRECL, record count (absent or empty means 1), RECFM. */
  datatype Answers = Answers(lrecl: Option<Positive>, recordCount: Option<Positive>, recfm: Option<PickedFormat>)

  datatype EditorAction =
    | NoAction
    | ReplaceSelection(text: string)
    | ReplaceLine(text: string)
    | InsertAtCursor(text: string)

  /** `s.toUpperCase().includes("BLKSIZE=")`, with ASCII case folding. */
  function MentionsBlksize(s: string): (b: bool)
    // the guard holds exactly where the key occurs in any mix of cases
    ensures b <==> exists i: nat | i <= |s| :: KeyAt(s, i, "BLKSIZE=")
  {
    var u := ToUpper(s);
    assert forall i: nat | i <= |s| :: PartAt(u, "BLKSIZE=", i) <==> KeyAt(s, i, "BLKSIZE=") by {
      forall i: nat | i <= |s|
        ensures PartAt(u, "BLKSIZE=", i) <==> KeyAt(s, i, "BLKSIZE=")
      {
        UpperPartIsKey(s, i, "BLKSIZE=");
      }
    }
    Contains(u, "BLKSIZE=")
  }

  /** A capitalised key occurs in the upper-cased text where it occurs in the text, ignoring case. */
  lemma UpperPartIsKey(s: string, i: nat, key: string)
    ensures PartAt(ToUpper(s), key, i) <==> KeyAt(s, i, key)
  {
    var u := ToUpper(s);
    if i + |key| <= |s| {
      var w := u[i..i + |key|];
      assert forall j :: 0 <= j < |key| ==> w[j] == UpperAscii(s[i + j]);
    }
  }

  /**
   * `selectedText && selectedText.toUpperCase().includes("BLKSIZE=")`: the
   * emptiness test is redundant, since an empty text never mentions the key.
   */
  function SelectionMentionsBlksize(selection: string): (b: bool)
    ensures b <==> MentionsBlksize(selection)
  {
    |selection| > 0 && MentionsBlksize(selection)
  }

  /**
   * The LRECL to use (lines 72-99): the value of the leftmost
   * `LRECL\s*=\s*\d+` match when it is not 0, else the prompt's answer.
   */
  function ChosenLrecl(context: string, answers: Answers): (r: Option<Positive>)
    ensures (forall m :: !IsMatch(context, LreclPattern, m)) ==> r == answers.lrecl
    ensures forall m :: IsRegexMatch(context, LreclPattern, m) ==>
      && AllDigits(MatchedValue(context, m))
      && (ParseDigits(MatchedValue(context, m)) == 0 ==> r == answers.lrecl)
      && (ParseDigits(MatchedValue(context, m)) > 0 ==> r == Some(ParseDigits(MatchedValue(context, m))))
  {
    match DetectLrecl(context)
    case Some(v) =>
      forall m | IsRegexMatch(context, LreclPattern, m)
        ensures m == FirstMatch(context, LreclPattern).value
      {
        RegexMatchUnique(context, LreclPattern, m, FirstMatch(context, LreclPattern).value);
      }
      if v > 0 then Some(v) else answers.lrecl
    case None => answers.lrecl
  }

  /**
   * The RECFM to use (lines 79-111): the letters of the leftmost
   * `RECFM\s*=\s*[A-Z]+` match in capitals, else the quick pick's answer.
   */
  function ChosenRecfm(context: string, answers: Answers): (r: Option<string>)
    ensures (forall m :: !IsMatch(context, RecfmPattern, m)) ==>
      (r.Some? <==> answers.recfm.Some?) && (r.Some? ==> r.value == answers.recfm.value)
    ensures forall m :: IsRegexMatch(context, RecfmPattern, m) ==>
      r == Some(ToUpper(MatchedValue(context, m)))
  {
    match DetectRecfm(context)
    case Some(f) =>
      forall m | IsRegexMatch(context, RecfmPattern, m)
        ensures m == FirstMatch(context, RecfmPattern).value
      {
        RegexMatchUnique(context, RecfmPattern, m, FirstMatch(context, RecfmPattern).value);
      }
      Some(f)
    case None => if answers.recfm.Some? then Some(answers.recfm.value) else None
  }

  /**
   * The text quick mode reads LRECL and RECFM from: the selection if any,
   * else the line. A non-empty selection is read even when only the line
   * mentions `BLKSIZE=`.
   */
  function QuickContext(selection: string, line: string): (r: string)
    ensures r == selection || r == line
    ensures SelectionMentionsBlksize(selection) ==> r == selection
    ensures r != selection ==> r == line && selection == []
    ensures selection == [] ==> r == line
  {
    if |selection| > 0 then selection else line
  }

  /** `calculateBlksize(lrecl, 1, recfm).optimalBlksize`, once both values are known (line 113). */
  function QuickBlksize(selection: string, line: string, answers: Answers): (r: Option<nat>)
    ensures var context := QuickContext(selection, line);
      && (r.Some? <==> ChosenLrecl(context, answers).Some? && ChosenRecfm(context, answers).Some?)
      && (r.Some? ==> r.value == OptimalBlksize(Calculate(ChosenLrecl(context, answers).value, 1, ChosenRecfm(context, answers).value)))
      && (r.Some? ==> r.value <= MaxBlksize)
  {
    var context := QuickContext(selection, line);
    var lrecl := ChosenLrecl(context, answers);
    var recfm := ChosenRecfm(context, answers);
    if lrecl.None? || recfm.None? then None
    else Some(BlockSize(lrecl.value, recfm.value))
  }

  /** Quick mode (lines 113-130): only the block size after the first `BLKSIZE=` changes. */
  function QuickMode(selection: string, line: string, answers: Answers): (r: EditorAction)
    ensures !r.InsertAtCursor?
    ensures r.NoAction? <==> QuickBlksize(selection, line, answers).None?
    ensures r.ReplaceSelection? <==> QuickBlksize(selection, line, answers).Some? && SelectionMentionsBlksize(selection)
    ensures r.ReplaceSelection? ==> ReadBlksize(r.text) == QuickBlksize(selection, line, answers)
    ensures r.ReplaceLine? && MentionsBlksize(line) ==> ReadBlksize(r.text) == QuickBlksize(selection, line, answers)
  {
    match QuickBlksize(selection, line, answers)
    case None => NoAction
    case Some(b) =>
      if SelectionMentionsBlksize(selection) then
        GuardFindsMatch(selection);
        ReplaceThenRead(selection, b);
        ReplaceSelection(ReplaceBlksize(selection, b))
      else
        assert MentionsBlksize(line) ==> ReadBlksize(ReplaceBlksize(line, b)) == Some(b) by {
          if MentionsBlksize(line) {
            GuardFindsMatch(line);
            ReplaceThenRead(line, b);
          }
        }
        ReplaceLine(ReplaceBlksize(line, b))
  }

  /** The record count full mode uses: the answer, or 1 when the box is left empty. */
  function RecordCount(answers: Answers): (n: nat)
    ensures n >= 1
    ensures answers.recordCount.None? ==> n == 1
    ensures answers.recordCount.Some? ==> n == answers.recordCount.value
  {
    if answers.recordCount.Some? then answers.recordCount.value else 1
  }

  /**
   * Full mode (lines 139-179): prompt for everything, compute, render. When
   * no record fits in a block the source's counts are Infinity, which the
   * template prints as the word "Infinity" in both space quantities.
   */
  function FullMode(answers: Answers): (r: EditorAction)
    ensures r.InsertAtCursor? <==> answers.lrecl.Some? && answers.recfm.Some?
    ensures r.NoAction? <==> !r.InsertAtCursor?
    ensures r.InsertAtCursor? ==>
      var lrecl := NatToString(answers.lrecl.value);
      var recfm: string := answers.recfm.value;
      var c := Calculate(answers.lrecl.value, RecordCount(answers), recfm);
      && Contains(r.text, DcbParameter(recfm, lrecl, NatToString(OptimalBlksize(c))))
      && (c.Success? ==> Contains(r.text, SpaceParameter(NatToString(c.value.primaryQty), NatToString(c.value.secondaryQty))))
      && (c.Failure? ==> Contains(r.text, SpaceParameter("Infinity", "Infinity")))
  {
    if answers.lrecl.None? || answers.recfm.None? then NoAction
    else
      var lrecl := answers.lrecl.value;
      var recfm: string := answers.recfm.value;
      match Calculate(lrecl, RecordCount(answers), recfm)
      case Success(a) => InsertAtCursor(RenderDd(NatToString(lrecl), recfm, a))
      case Failure(NoRecordFits(b)) =>
        InsertAtCursor(DdStatement(recfm, NatToString(lrecl), NatToString(b), "Infinity", "Infinity"))
  }

  /** The whole command. */
  function InsertJcl(selection: string, line: string, answers: Answers): (r: EditorAction)
    // quick mode runs whenever the selection or the line mentions `BLKSIZE=`
    ensures r.ReplaceSelection? <==> SelectionMentionsBlksize(selection) && QuickBlksize(selection, line, answers).Some?
    ensures r.ReplaceLine? <==> (!SelectionMentionsBlksize(selection) && MentionsBlksize(line)
      && QuickBlksize(selection, line, answers).Some?)
    ensures SelectionMentionsBlksize(selection) || MentionsBlksize(line) ==>
      (r.NoAction? <==> QuickBlksize(selection, line, answers).None?)
    // full mode otherwise, inserting the rendering of the calculation
    ensures r.InsertAtCursor? <==> (!SelectionMentionsBlksize(selection) && !MentionsBlksize(line)
      && answers.lrecl.Some? && answers.recfm.Some?)
    ensures r.InsertAtCursor? ==>
      var lrecl := answers.lrecl.value;
      var recfm: string := answers.recfm.value;
      var c := Calculate(lrecl, RecordCount(answers), recfm);
      && (c.Success? ==> r.text == RenderDd(NatToString(lrecl), recfm, c.value))
      && (c.Failure? ==> r.text == DdStatement(recfm, NatToString(lrecl), NatToString(c.error.optimalBlksize), "Infinity", "Infinity"))
  {
    if SelectionMentionsBlksize(selection) || MentionsBlksize(line) then QuickMode(selection, line, answers)
    else FullMode(answers)
  }

  /** Wherever the guard sees `BLKSIZE=`, the rewriting expression has a match. */
  lemma GuardFindsMatch(s: string)
    requires MentionsBlksize(s)
    ensures FirstMatch(s, BlksizePattern).Some?
  {
    var i: nat :| i <= |s| && KeyAt(s, i, "BLKSIZE=");
    var key := "BLKSIZE=";
    assert UpperAscii(s[i + 7]) == key[7] == '=';
    assert KeyAt(s, i, BlksizePattern.key) by {
      forall j | 0 <= j < 7
        ensures UpperAscii(s[i + j]) == BlksizePattern.key[j]
      {
        assert UpperAscii(s[i + j]) == key[j];
      }
    }
    assert IsMatch(s, BlksizePattern, Match(i, i + 7, i + 8, i + 8));
  }

  /**
   * A quick-mode edit sets the first block size to a legal value and leaves
   * the rest of the text as the rewrite promises.
   */
  lemma QuickEditSetsBlksize(selection: string, line: string, answers: Answers)
    requires InsertJcl(selection, line, answers).ReplaceSelection? || InsertJcl(selection, line, answers).ReplaceLine?
    ensures QuickBlksize(selection, line, answers).Some?
    ensures var b := QuickBlksize(selection, line, answers).value;
      var edited := if SelectionMentionsBlksize(selection) then selection else line;
      var t := InsertJcl(selection, line, answers).text;
      && b <= MaxBlksize
      && t == ReplaceBlksize(edited, b)
      && ReadBlksize(t) == Some(b)
  {
    var b := QuickBlksize(selection, line, answers).value;
    var edited := if SelectionMentionsBlksize(selection) then selection else line;
    GuardFindsMatch(edited);
    ReplaceThenRead(edited, b);
  }

  /** When the text names both LRECL (non-zero) and RECFM, the prompts are never consulted. */
  lemma DetectedValuesNeedNoPrompt(selection: string, line: string, a1: Answers, a2: Answers)
    requires SelectionMentionsBlksize(selection) || MentionsBlksize(line)
    requires var context := QuickContext(selection, line);
      && DetectLrecl(context).Some? && DetectLrecl(context).value > 0
      && DetectRecfm(context).Some?
    ensures InsertJcl(selection, line, a1) == InsertJcl(selection, line, a2)
  {
    var context := QuickContext(selection, line);
    assert ChosenLrecl(context, a1) == ChosenLrecl(context, a2);
    assert ChosenRecfm(context, a1) == ChosenRecfm(context, a2);
    assert InsertJcl(selection, line, a1) == QuickMode(selection, line, a1);
    assert InsertJcl(selection, line, a2) == QuickMode(selection, line, a2);
  }

  /** Full mode always inserts four `//` cards. */
  lemma FullModeInsertsFourCards(selection: string, line: string, answers: Answers)
    ensures InsertJcl(selection, line, answers).InsertAtCursor? ==>
      var t := InsertJcl(selection, line, answers).text;
      |SplitLines(t)| == 4 && JoinLines(SplitLines(t)) == t
  {
    var act := InsertJcl(selection, line, answers);
    if act.InsertAtCursor? {
      assert act == FullMode(answers);
      FullModeCards(answers);
    }
  }

  lemma FullModeCards(answers: Answers)
    requires answers.lrecl.Some? && answers.recfm.Some?
    ensures FullMode(answers).InsertAtCursor?
    ensures var t := FullMode(answers).text;
      |SplitLines(t)| == 4 && JoinLines(SplitLines(t)) == t
  {
    var lrecl := answers.lrecl.value;
    var recfm: string := answers.recfm.value;
    var r := Calculate(lrecl, RecordCount(answers), recfm);
    if r.Success? {
      var a := r.value;
      assert FullMode(answers) == InsertAtCursor(RenderDd(NatToString(lrecl), recfm, a));
      StatementCards(recfm, lrecl, a.optimalBlksize, NatToString(a.primaryQty), NatToString(a.secondaryQty));
    } else {
      var b := r.error.optimalBlksize;
      assert FullMode(answers) == InsertAtCursor(DdStatement(recfm, NatToString(lrecl), NatToString(b), "Infinity", "Infinity"));
      StatementCards(recfm, lrecl, b, "Infinity", "Infinity");
    }
  }

  lemma StatementCards(recfm: PickedFormat, lrecl: nat, blksize: nat, primary: string, secondary: string)
    requires '\n' !in primary && '\n' !in secondary
    ensures var t := DdStatement(recfm, NatToString(lrecl), NatToString(blksize), primary, secondary);
      |SplitLines(t)| == 4 && JoinLines(SplitLines(t)) == t
  {
    NoLineBreakInNumeral(lrecl);
    NoLineBreakInNumeral(blksize);
    FourCards(recfm, NatToString(lrecl), NatToString(blksize), primary, secondary);
  }

  /** A numeral is made of digits only, so it never breaks a card. */
  lemma NoLineBreakInNumeral(n: nat)
    ensures '\n' !in NatToString(n)
  {
  }
}
