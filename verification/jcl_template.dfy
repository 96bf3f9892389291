/**
 * The JCL renderer `generateJCL` of extension.js: a four-card DD statement
 * with the record format, record length, block size and the primary and
 * secondary cylinder quantities spliced into a fixed template.
 */
module JclTemplate {
  import opened Decimal
  import opened Calculator

  /** Continuation cards start their parameter in column 16. */
  const Indent: string := "             "
  const DsnText: string := "DATASET  DD DSN=DXXX.NW.XXXX,"
  const DispText: string := "DISP=(NEW,CATLG),UNIT=SYSDA,"

  function SpaceParameter(primary: string, secondary: string): (r: string)
    ensures '\n' !in primary && '\n' !in secondary ==> '\n' !in r
  {
    "SPACE=(CYL,(" + primary + "," + secondary + "),RLSE)"
  }

  /** The DCB sub-parameters, without the surrounding `DCB=(` and `)`. */
  function DcbList(recfm: string, lrecl: string, blksize: string): (r: string)
    ensures '\n' !in recfm && '\n' !in lrecl && '\n' !in blksize ==> '\n' !in r
  {
    "RECFM=" + recfm + ",LRECL=" + lrecl + ",BLKSIZE=" + blksize
  }

  function DcbParameter(recfm: string, lrecl: string, blksize: string): (r: string)
    ensures '\n' !in recfm && '\n' !in lrecl && '\n' !in blksize ==> '\n' !in r
  {
    "DCB=(" + DcbList(recfm, lrecl, blksize) + ")"
  }

  /** A card: the `//` marker and the card's text. */
  function Card(text: string): (line: string)
    ensures '\n' !in text ==> IsCardLine(line)
  {
    "//" + text
  }

  /** The four cards of the template, without their line breaks. */
  function DdCards(recfm: string, lrecl: string, blksize: string, primary: string, secondary: string): seq<string> {
    [ Card(DsnText),
      Card(Indent + DispText),
      Card(Indent + SpaceParameter(primary, secondary) + ","),
      Card(Indent + DcbParameter(recfm, lrecl, blksize)) ]
  }

  /**
   * The template with its five holes filled by already formatted text. The
   * source fills the quantity holes with `${...}` of numbers, which is the
   * decimal numeral or, for an infinite count, the word "Infinity".
   */
  function DdStatement(recfm: string, lrecl: string, blksize: string, primary: string, secondary: string): (r: string)
    ensures Contains(r, SpaceParameter(primary, secondary))
    ensures Contains(r, DcbParameter(recfm, lrecl, blksize))
  {
    var cards := DdCards(recfm, lrecl, blksize, primary, secondary);
    assert cards[2] == "//" + Indent + SpaceParameter(primary, secondary) + ",";
    assert cards[3] == "//" + Indent + DcbParameter(recfm, lrecl, blksize) + "";
    ContainsInLine(cards, 2, "//" + Indent, SpaceParameter(primary, secondary), ",");
    ContainsInLine(cards, 3, "//" + Indent, DcbParameter(recfm, lrecl, blksize), "");
    JoinLines(cards)
  }

  /** `generateJCL(lrecl, recfm, results)`: only three fields of the result are read. */
  function RenderDd(lrecl: string, recfm: string, a: Allocation): (r: string)
    ensures Contains(r, SpaceParameter(NatToString(a.primaryQty), NatToString(a.secondaryQty)))
    ensures Contains(r, DcbParameter(recfm, lrecl, NatToString(a.optimalBlksize)))
  {
    DdStatement(recfm, lrecl, NatToString(a.optimalBlksize), NatToString(a.primaryQty), NatToString(a.secondaryQty))
  }

  predicate PartAt(s: string, part: string, i: nat) {
    i + |part| <= |s| && s[i..i + |part|] == part
  }

  predicate Contains(s: string, part: string) {
    exists i: nat | i <= |s| :: PartAt(s, part, i)
  }

  lemma ContainsWitness(s: string, before: string, part: string, after: string)
    requires s == before + part + after
    ensures Contains(s, part)
  {
    assert s[|before|..|before| + |part|] == part;
    assert PartAt(s, part, |before|);
  }

  lemma ContainsTransitive(s: string, t: string, u: string)
    requires Contains(s, t) && Contains(t, u)
    ensures Contains(s, u)
  {
    var i: nat :| i <= |s| && PartAt(s, t, i);
    var j: nat :| j <= |t| && PartAt(t, u, j);
    assert forall m :: 0 <= m < |t| ==> s[i + m] == s[i..i + |t|][m] == t[m];
    assert s[i + j..i + j + |u|] == t[j..j + |u|];
    assert PartAt(s, u, i + j);
  }

  /** A piece of one line is a piece of the joined text. */
  lemma {:induction false} ContainsInLine(lines: seq<string>, n: nat, before: string, part: string, after: string)
    requires n < |lines| && lines[n] == before + part + after
    ensures Contains(JoinLines(lines), part)
  {
    if n == 0 {
      ContainsWitness(JoinLines(lines), before, part, after + "\n" + JoinLines(lines[1..]));
    } else {
      ContainsInLine(lines[1..], n - 1, before, part, after);
      ContainsWitness(JoinLines(lines), lines[0] + "\n", JoinLines(lines[1..]), "");
      ContainsTransitive(JoinLines(lines), JoinLines(lines[1..]), part);
    }
  }

  /** Index of the first line break at or after `i`, or `|s|` when there is none. */
  function LineEnd(s: string, i: nat): (k: nat)
    requires i <= |s|
    ensures i <= k <= |s|
    ensures k < |s| ==> s[k] == '\n'
    ensures forall j :: i <= j < k ==> s[j] != '\n'
    decreases |s| - i
  {
    if i == |s| || s[i] == '\n' then i else LineEnd(s, i + 1)
  }

  /** The lines of a text; a final line break does not open an empty last line. */
  function SplitLines(s: string): seq<string>
    decreases |s|
  {
    if s == [] then []
    else
      var k := LineEnd(s, 0);
      if k == |s| then [s] else [s[..k]] + SplitLines(s[k + 1..])
  }

  /** Puts a line break after every line. */
  function JoinLines(lines: seq<string>): string {
    if lines == [] then "" else lines[0] + "\n" + JoinLines(lines[1..])
  }

  predicate IsCardLine(line: string) {
    |line| >= 2 && line[..2] == "//" && '\n' !in line
  }

  lemma SplitAfterLine(line: string, rest: string)
    requires '\n' !in line
    ensures SplitLines(line + "\n" + rest) == [line] + SplitLines(rest)
  {
    var s := line + "\n" + rest;
    var k := LineEnd(s, 0);
    assert forall j :: 0 <= j < |line| ==> s[j] == line[j];
    assert s[|line|] == '\n';
    assert k == |line|;
    assert s[..k] == line;
    assert s[k + 1..] == rest;
  }

  /** Splitting joined single-line texts gives the lines back. */
  lemma {:induction false} SplitJoin(lines: seq<string>)
    requires forall i :: 0 <= i < |lines| ==> '\n' !in lines[i]
    ensures SplitLines(JoinLines(lines)) == lines
  {
    if lines != [] {
      SplitAfterLine(lines[0], JoinLines(lines[1..]));
      SplitJoin(lines[1..]);
    }
  }

  /**
   * The statement is exactly four `//` cards, each ended by a line break,
   * as long as the spliced values are single-line.
   */
  lemma FourCards(recfm: string, lrecl: string, blksize: string, primary: string, secondary: string)
    requires '\n' !in recfm && '\n' !in lrecl && '\n' !in blksize
    requires '\n' !in primary && '\n' !in secondary
    ensures var r := DdStatement(recfm, lrecl, blksize, primary, secondary);
      && |SplitLines(r)| == 4
      && (forall i :: 0 <= i < 4 ==> IsCardLine(SplitLines(r)[i]))
      && JoinLines(SplitLines(r)) == r
  {
    var cards := DdCards(recfm, lrecl, blksize, primary, secondary);
    FixedTextsSingleLine();
    assert forall i :: 0 <= i < 4 ==> IsCardLine(cards[i]);
    SplitJoin(cards);
  }

  lemma FixedTextsSingleLine()
    ensures '\n' !in Indent && '\n' !in DsnText && '\n' !in DispText
  {
  }

  /** Two results that agree on block size and the two quantities render the same text. */
  lemma RenderReadsThreeFields(lrecl: string, recfm: string, a: Allocation, b: Allocation)
    requires a.optimalBlksize == b.optimalBlksize
    requires a.primaryQty == b.primaryQty && a.secondaryQty == b.secondaryQty
    ensures RenderDd(lrecl, recfm, a) == RenderDd(lrecl, recfm, b)
  {
  }

  /** Rendering the worked example's result (block size 27920, one cylinder primary and secondary). */
  lemma Example80FB(a: Allocation)
    requires a.optimalBlksize == 27920 && a.primaryQty == 1 && a.secondaryQty == 1
    ensures Contains(RenderDd("80", "FB", a), "RECFM=FB,LRECL=80,BLKSIZE=27920")
    ensures Contains(RenderDd("80", "FB", a), "SPACE=(CYL,(1,1),RLSE)")
  {
    ExampleNumerals();
    ContainsTransitive(RenderDd("80", "FB", a), DcbParameter("FB", "80", "27920"), "RECFM=FB,LRECL=80,BLKSIZE=27920");
  }

  lemma ExampleNumerals()
    ensures NatToString(27920) == "27920"
    ensures SpaceParameter(NatToString(1), NatToString(1)) == "SPACE=(CYL,(1,1),RLSE)"
    ensures Contains(DcbParameter("FB", "80", "27920"), "RECFM=FB,LRECL=80,BLKSIZE=27920")
  {
    Numeral27920();
    assert NatToString(1) == "1";
    ExampleDcb();
  }

  lemma Numeral27920()
    ensures NatToString(27920) == "27920"
  {
  }

  lemma ExampleDcb()
    ensures Contains(DcbParameter("FB", "80", "27920"), "RECFM=FB,LRECL=80,BLKSIZE=27920")
  {
    assert DcbList("FB", "80", "27920") == "RECFM=FB,LRECL=80,BLKSIZE=27920";
    ContainsWitness(DcbParameter("FB", "80", "27920"), "DCB=(", DcbList("FB", "80", "27920"), ")");
  }
}
