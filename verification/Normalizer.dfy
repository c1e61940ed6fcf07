/**
 The whole of chinese_to_english_punctuation.py: `handle_everything` runs the
 eleven punctuation handlers, the spacing pass and the `**` post-pass on one
 line, and `process` does that for every line of a text.
 */
module Normalizer {

  import opened Text
  import opened Punctuation
  import opened Spacing
  import opened PairedMarkers
  import opened HandlerLaws

  // ---------------------------------------------------------------------------
  // Lines
  // ---------------------------------------------------------------------------

  /** The characters `str.splitlines()` breaks a text at. */
  predicate IsLineBoundary(c: char) {
    var n := c as int;
    n == 0x0A || n == 0x0B || n == 0x0C || n == 0x0D || n == 0x1C || n == 0x1D
    || n == 0x1E || n == 0x85 || n == 0x2028 || n == 0x2029
  }

  /** No line boundary in `s`. */
  predicate OneLine(s: string) {
    forall k :: 0 <= k < |s| ==> !IsLineBoundary(s[k])
  }

  /** The first line boundary at or after `i`, or the end of `s`. */
  function LineEnd(s: string, i: nat): (j: nat)
    requires i <= |s|
    ensures i <= j <= |s|
    ensures j < |s| ==> IsLineBoundary(s[j])
    ensures forall k :: i <= k < j ==> !IsLineBoundary(s[k])
    decreases |s| - i
  {
    if i == |s| || IsLineBoundary(s[i]) then i else LineEnd(s, i + 1)
  }

  /** `str.splitlines()`: the lines without their ends; `"\r\n"` ends one
      line, and a final line end does not start another line. */
  function SplitLines(s: string): (r: seq<string>)
    ensures forall i :: 0 <= i < |r| ==> OneLine(r[i])
    decreases |s|
  {
    if |s| == 0 then []
    else
      var j := LineEnd(s, 0);
      if j == |s| then [s]
      else
        var w := if s[j] == '\r' && j + 1 < |s| && s[j + 1] == '\n' then 2 else 1;
        [s[..j]] + SplitLines(s[j + w..])
  }

  /** A text with no line boundary is a single line, and the empty text has
      no lines. */
  lemma SplitLinesOneLine(a: string)
    requires OneLine(a)
    ensures SplitLines(a) == if a == [] then [] else [a]
  {
    if a != [] {
      assert LineEnd(a, 0) == |a|;
    }
  }

  /** A line ended by any single boundary character is the first line, and
      the rest of the text gives the others. A `'\r'` directly followed by
      `'\n'` is the two-character boundary of `SplitLinesCrLf` instead. */
  lemma SplitLinesBreak(a: string, c: char, b: string)
    requires OneLine(a) && IsLineBoundary(c)
    requires c != '\r' || b == [] || b[0] != '\n'
    ensures SplitLines(a + [c] + b) == [a] + SplitLines(b)
  {
    var s := a + [c] + b;
    assert s[|a|] == c;
    assert forall k :: 0 <= k < |a| ==> s[k] == a[k];
    assert LineEnd(s, 0) == |a|;
    assert s[..|a|] == a && s[|a| + 1..] == b;
  }

  /** `"\r\n"` ends one line: it does not leave an empty line between. */
  lemma SplitLinesCrLf(a: string, b: string)
    requires OneLine(a)
    ensures SplitLines(a + "\r\n" + b) == [a] + SplitLines(b)
  {
    var s := a + "\r\n" + b;
    assert s[|a|] == '\r' && s[|a| + 1] == '\n';
    assert forall k :: 0 <= k < |a| ==> s[k] == a[k];
    assert LineEnd(s, 0) == |a|;
    assert s[..|a|] == a && s[|a| + 2..] == b;
  }

  /** The text with one final `'\n'` dropped, if it has one. */
  function DropFinalNewline(s: string): (r: string)
    ensures r == s || (s != [] && s[|s| - 1] == '\n' && r == s[..|s| - 1])
  {
    if |s| > 0 && s[|s| - 1] == '\n' then s[..|s| - 1] else s
  }

  /** For a text whose only line boundaries are `'\n'`, the lines joined by
      `"\n"` give the text back, less one final `'\n'`. */
  lemma {:induction false} SplitLinesJoin(s: string)
    requires forall k :: 0 <= k < |s| && IsLineBoundary(s[k]) ==> s[k] == '\n'
    ensures Join(SplitLines(s), "\n") == DropFinalNewline(s)
    decreases |s|
  {
    if |s| > 0 {
      var j := LineEnd(s, 0);
      if j < |s| {
        var a := s[..j];
        var rest := s[j + 1..];
        SplitLinesAtNewline(s, j);
        NewlinesOnlySuffix(s, j + 1);
        SplitLinesJoin(rest);
        JoinLineStep(a, rest, SplitLines(rest));
      } else {
        assert SplitLines(s) == [s];
      }
    }
  }

  /** A suffix of a text whose only line boundaries are `'\n'` has no other
      boundary either. */
  lemma NewlinesOnlySuffix(s: string, i: nat)
    requires i <= |s|
    requires forall k :: 0 <= k < |s| && IsLineBoundary(s[k]) ==> s[k] == '\n'
    ensures forall k :: 0 <= k < |s[i..]| && IsLineBoundary(s[i..][k]) ==> s[i..][k] == '\n'
  {
    forall k | 0 <= k < |s[i..]| && IsLineBoundary(s[i..][k]) ensures s[i..][k] == '\n' {
      assert s[i..][k] == s[i + k];
    }
  }

  /** At a `'\n'`, the first line is the text before it and the others are
      the lines of the text after it. */
  lemma SplitLinesAtNewline(s: string, j: nat)
    requires j == LineEnd(s, 0) && j < |s| && s[j] == '\n'
    ensures s == s[..j] + "\n" + s[j + 1..]
    ensures SplitLines(s) == [s[..j]] + SplitLines(s[j + 1..])
  {
    SplitAround(s, j);
    assert s[j] != '\r';
  }

  /** A text is what comes before position `j`, the character there, and
      what comes after. */
  lemma SplitAround(s: string, j: nat)
    requires j < |s|
    ensures s == s[..j] + [s[j]] + s[j + 1..]
  {
  }

  /** Joining a line in front of the lines of `rest` gives the text they came
      from. */
  lemma JoinLineStep(a: string, rest: string, r: seq<string>)
    requires Join(r, "\n") == DropFinalNewline(rest)
    requires r == [] <==> rest == []
    ensures Join([a] + r, "\n") == DropFinalNewline(a + "\n" + rest)
  {
    var s := a + "\n" + rest;
    if |r| == 0 {
      assert [a] + r == [a];
      assert s[..|s| - 1] == a;
    } else {
      JoinCons(a, r, "\n");
      if rest[|rest| - 1] == '\n' {
        assert s[|s| - 1] == '\n';
        assert s[..|s| - 1] == a + "\n" + rest[..|rest| - 1];
      } else {
        assert s[|s| - 1] == rest[|rest| - 1];
      }
    }
  }

  // ---------------------------------------------------------------------------
  // One line
  // ---------------------------------------------------------------------------

  /** The three shapes a handler has, with its full-width mark and the ASCII
      character that replaces it. */
  datatype Rule =
    | Separator(mark: char, ascii: char)
    | Opener(mark: char, ascii: char)
    | Closer(mark: char, ascii: char, closers: string)

  /** A full-width mark replaced by an ASCII character. */
  predicate ValidRule(rule: Rule) {
    IsNonAscii(rule.mark) && !IsSpace(rule.mark) && !IsNonAscii(rule.ascii) && !IsSpace(rule.ascii)
  }

  predicate ValidRules(rules: seq<Rule>) {
    forall i :: 0 <= i < |rules| ==> ValidRule(rules[i])
  }

  /** The handler a rule stands for. */
  function Apply(rule: Rule, line: string): (r: string)
    requires ValidRule(rule)
    ensures rule.mark !in r && Stripped(r) && CharsFrom(r, line, Glue(rule.ascii))
  {
    match rule
    case Separator(m, a) => Separate(line, m, a)
    case Opener(m, a) => Open(line, m, a)
    case Closer(m, a, cs) => Close(line, m, a, cs)
  }

  /** The rules applied one after the other. */
  function ApplyAll(rules: seq<Rule>, line: string): string
    requires ValidRules(rules)
    decreases |rules|
  {
    if |rules| == 0 then line else ApplyAll(rules[1..], Apply(rules[0], line))
  }

  /** The handlers `handle_everything` calls, in its order. */
  const Rules: seq<Rule> := [
    Separator('，', ','), Separator('、', ','), Separator('。', '.'),
    Separator('：', ':'), Separator('；', ';'), Separator('？', '?'),
    Separator('！', '!'), Opener('（', '('), Closer('）', ')', ParenClosers),
    Opener('“', '"'), Closer('”', '"', QuoteClosers)
  ]

  /** Each rule is the handler at its place in `handle_everything`. */
  lemma RulesAreHandlers(line: string)
    ensures ValidRules(Rules)
    ensures Apply(Rules[0], line) == HandleDouHao(line)
    ensures Apply(Rules[1], line) == HandleDunHao(line)
    ensures Apply(Rules[2], line) == HandleJuHao(line)
    ensures Apply(Rules[3], line) == HandleMaoHao(line)
    ensures Apply(Rules[4], line) == HandleFenHao(line)
    ensures Apply(Rules[5], line) == HandleWenHao(line)
    ensures Apply(Rules[6], line) == HandleExclamation(line)
    ensures Apply(Rules[7], line) == HandleZuoKuoHao(line)
    ensures Apply(Rules[8], line) == HandleYouKuoHao(line)
    ensures Apply(Rules[9], line) == HandleZuoShuangYinHao(line)
    ensures Apply(Rules[10], line) == HandleYouShuangYinHao(line)
  {
    RulesListed();
    RulesValid();
  }

  /** The punctuation part of `handle_everything`: the eleven handlers in
      order. */
  function ConvertPunctuation(line: string): string {
    assert ValidRules(Rules);
    ApplyAll(Rules, line)
  }

  /** The first handler, then the others. */
  lemma ConvertPunctuationFirst(line: string)
    ensures ValidRules(Rules) && ConvertPunctuation(line) == ApplyAll(Rules[1..], Apply(Rules[0], line))
  {
    RulesFacts();
  }

  /** `handle_everything`. */
  function HandleEverything(line: string): string {
    PostProcessPairedMarkers(Spaced(ConvertPunctuation(line)))
  }

  /** `process`: every line handled, the results joined by `"\n"`. */
  function Process(text: string): string {
    Join(MapLines(HandleEverything, SplitLines(text)), "\n")
  }

  /** A list comprehension over lines. */
  function MapLines(f: string -> string, lines: seq<string>): (r: seq<string>)
    ensures |r| == |lines|
  {
    if |lines| == 0 then [] else [f(lines[0])] + MapLines(f, lines[1..])
  }

  /** Line `i` of the output is `f` of line `i` of the input. */
  lemma {:induction false} MapLinesAt(f: string -> string, lines: seq<string>, i: nat)
    requires i < |lines|
    ensures MapLines(f, lines)[i] == f(lines[i])
    decreases i
  {
    if i > 0 {
      MapLinesAt(f, lines[1..], i - 1);
    }
  }

  // ---------------------------------------------------------------------------
  // What a handled line looks like
  // ---------------------------------------------------------------------------

  /** The full-width marks the handlers convert, in the order they run:
      ，、。：；？！（）“”. */
  const FullWidthMarks: string := MarksOf(Rules)

  /** The marks of the rules, in order. */
  function MarksOf(rules: seq<Rule>): (r: string)
    ensures |r| == |rules| && forall i :: 0 <= i < |r| ==> r[i] == rules[i].mark
  {
    if |rules| == 0 then [] else [rules[0].mark] + MarksOf(rules[1..])
  }

  /** None of `marks` occurs in `s`. */
  predicate FreeOf(s: string, marks: string) {
    forall j :: 0 <= j < |marks| ==> marks[j] !in s
  }

  /** The characters the handlers may add: their ASCII replacements and the
      space. */
  const Glues: string := ",.:;?!()\" "

  /** No character of `s` is non-ASCII. */
  predicate Ascii(s: string) {
    forall i :: 0 <= i < |s| ==> !IsNonAscii(s[i])
  }

  /** Provenance composes. */
  lemma CharsFromTrans(x: string, y: string, z: string, extra: string)
    requires CharsFrom(y, x, extra) && CharsFrom(z, y, extra)
    ensures CharsFrom(z, x, extra)
  {
  }

  /** One rule removes its mark and, adding only ASCII, brings back none of
      the non-ASCII marks before it. */
  lemma ApplyFree(rule: Rule, x: string, marks: string, extra: string)
    requires ValidRule(rule) && FreeOf(x, marks)
    requires forall j :: 0 <= j < |marks| ==> IsNonAscii(marks[j])
    requires rule.ascii in extra && ' ' in extra && Ascii(extra)
    ensures FreeOf(Apply(rule, x), marks + [rule.mark])
    ensures Stripped(Apply(rule, x)) && CharsFrom(Apply(rule, x), x, extra)
  {
    var y := Apply(rule, x);
    forall j | 0 <= j < |marks| ensures marks[j] !in y {
      assert marks[j] !in extra;
    }
  }

  /** A non-ASCII mark added to non-ASCII marks. */
  lemma NonAsciiSnoc(marks: string, c: char)
    requires forall j :: 0 <= j < |marks| ==> IsNonAscii(marks[j])
    requires IsNonAscii(c)
    ensures forall j :: 0 <= j < |marks + [c]| ==> IsNonAscii((marks + [c])[j])
  {
    forall j | 0 <= j < |marks + [c]| ensures IsNonAscii((marks + [c])[j]) {
      if j < |marks| {
        assert (marks + [c])[j] == marks[j];
      } else {
        assert (marks + [c])[j] == c;
      }
    }
  }

  /** The rules in turn remove their marks and, adding only ASCII, bring none
      back. */
  lemma {:induction false} ApplyAllFree(rules: seq<Rule>, x: string, marks: string, extra: string)
    requires ValidRules(rules) && FreeOf(x, marks)
    requires forall j :: 0 <= j < |marks| ==> IsNonAscii(marks[j])
    requires forall i :: 0 <= i < |rules| ==> rules[i].ascii in extra
    requires ' ' in extra && Ascii(extra)
    ensures FreeOf(ApplyAll(rules, x), marks + MarksOf(rules))
    decreases |rules|
  {
    if |rules| > 0 {
      var r0 := rules[0];
      var rest := rules[1..];
      RulesTail(rules, extra);
      var y := Apply(r0, x);
      ApplyFree(r0, x, marks, extra);
      NonAsciiSnoc(marks, r0.mark);
      ApplyAllFree(rest, y, marks + [r0.mark], extra);
      HeadRuleFires(rules, x);
      assert MarksOf(rules) == [r0.mark] + MarksOf(rest);
      ConcatAssoc(marks, [r0.mark], MarksOf(rest));
    }
  }

  /** The rules after the first are valid and glued from `extra` too. */
  lemma RulesTail(rules: seq<Rule>, extra: string)
    requires ValidRules(rules) && |rules| > 0
    requires forall i :: 0 <= i < |rules| ==> rules[i].ascii in extra
    ensures ValidRule(rules[0]) && rules[0].ascii in extra && ValidRules(rules[1..])
    ensures forall i :: 0 <= i < |rules[1..]| ==> rules[1..][i].ascii in extra
  {
    var rest := rules[1..];
    forall i | 0 <= i < |rest| ensures ValidRule(rest[i]) && rest[i].ascii in extra {
      assert rest[i] == rules[i + 1];
    }
  }

  /** The rules add nothing but their ASCII characters and spaces. */
  lemma {:induction false} ApplyAllChars(rules: seq<Rule>, x: string, extra: string)
    requires ValidRules(rules)
    requires forall i :: 0 <= i < |rules| ==> rules[i].ascii in extra
    requires ' ' in extra
    ensures CharsFrom(ApplyAll(rules, x), x, extra)
    decreases |rules|
  {
    if |rules| > 0 {
      var y := Apply(rules[0], x);
      ApplyAllChars(rules[1..], y, extra);
      CharsFromTrans(x, y, ApplyAll(rules, x), extra);
    }
  }

  /** Every rule strips the line. */
  lemma {:induction false} ApplyAllStripped(rules: seq<Rule>, x: string)
    requires ValidRules(rules) && |rules| > 0
    ensures Stripped(ApplyAll(rules, x))
    decreases |rules|
  {
    if |rules| > 1 {
      ApplyAllStripped(rules[1..], Apply(rules[0], x));
    }
  }

  /** After the eleven handlers none of the full-width marks is left, the
      line is stripped, and nothing but the ASCII replacements and spaces
      was added. */
  lemma ConvertPunctuationFree(line: string)
    ensures FreeOf(ConvertPunctuation(line), FullWidthMarks)
    ensures Stripped(ConvertPunctuation(line))
    ensures CharsFrom(ConvertPunctuation(line), line, Glues)
  {
    RulesFacts();
    ApplyAllFree(Rules, line, "", Glues);
    ApplyAllChars(Rules, line, Glues);
    ApplyAllStripped(Rules, line);
    assert "" + MarksOf(Rules) == MarksOf(Rules);
  }

  /** Every rule of the list is valid. */
  lemma RulesFacts()
    ensures ValidRules(Rules)
    ensures forall i :: 0 <= i < |Rules| ==> Rules[i].ascii in Glues
    ensures ' ' in Glues && Ascii(Glues)
  {
    RulesValid();
    RulesGlued();
    GluesAscii();
  }

  /** Every mark is a full-width character and every replacement an ASCII
      one, neither of them whitespace. */
  lemma RulesValid()
    ensures ValidRules(Rules)
  {
    RulesListed();
  }

  /** Every replacement is one of the glue characters. */
  lemma RulesGlued()
    ensures forall i :: 0 <= i < |Rules| ==> Rules[i].ascii in Glues
  {
    RulesListed();
    GluesAscii();
  }

  /** The rule list, element by element. */
  lemma RulesListed()
    ensures |Rules| == 11
    ensures Rules[0] == Separator('，', ',') && Rules[1] == Separator('、', ',')
    ensures Rules[2] == Separator('。', '.') && Rules[3] == Separator('：', ':')
    ensures Rules[4] == Separator('；', ';') && Rules[5] == Separator('？', '?')
    ensures Rules[6] == Separator('！', '!') && Rules[7] == Opener('（', '(')
    ensures Rules[8] == Closer('）', ')', ParenClosers) && Rules[9] == Opener('“', '"')
    ensures Rules[10] == Closer('”', '"', QuoteClosers)
  {
  }

  /** The glue characters are ASCII and include every replacement. */
  lemma GluesAscii()
    ensures ' ' in Glues && Ascii(Glues)
    ensures ',' in Glues && '.' in Glues && ':' in Glues && ';' in Glues && '?' in Glues
    ensures '!' in Glues && '(' in Glues && ')' in Glues && '"' in Glues
  {
    assert Glues[0] == ',' && Glues[1] == '.' && Glues[2] == ':' && Glues[3] == ';';
    assert Glues[4] == '?' && Glues[5] == '!' && Glues[6] == '(' && Glues[7] == ')';
    assert Glues[8] == '"' && Glues[9] == ' ';
  }

  /** A rule leaves a line without its mark stripped and otherwise alone. */
  lemma ApplyNoMark(rule: Rule, x: string)
    requires ValidRule(rule) && rule.mark !in x
    ensures Apply(rule, x) == Strip(x)
  {
    match rule
    case Separator(m, a) => SeparateNoMark(x, m, a);
    case Opener(m, a) => OpenNoMark(x, m, a);
    case Closer(m, a, cs) => CloseNoMark(x, m, a, cs);
  }

  /** A text free of the marks of some rules is free of the marks of all but
      the first. */
  lemma FreeOfTail(rules: seq<Rule>, x: string)
    requires |rules| > 0 && FreeOf(x, MarksOf(rules))
    ensures FreeOf(x, MarksOf(rules[1..]))
  {
    var marks := MarksOf(rules);
    assert marks == [rules[0].mark] + MarksOf(rules[1..]);
    assert marks[1..] == MarksOf(rules[1..]);
    FreeOfDrop(x, marks);
  }

  /** Being free of some marks means being free of all but the first. */
  lemma FreeOfDrop(x: string, marks: string)
    requires |marks| > 0 && FreeOf(x, marks)
    ensures FreeOf(x, marks[1..])
  {
    forall j | 0 <= j < |marks| - 1 ensures marks[1..][j] !in x {
      assert marks[1..][j] == marks[j + 1];
    }
  }

  /** A stripped line holding none of the marks passes the rules unchanged. */
  lemma {:induction false} ApplyAllUntouched(rules: seq<Rule>, x: string)
    requires ValidRules(rules) && Stripped(x)
    requires FreeOf(x, MarksOf(rules))
    ensures ApplyAll(rules, x) == x
    decreases |rules|
  {
    if |rules| > 0 {
      assert MarksOf(rules)[0] == rules[0].mark;
      ApplyNoMark(rules[0], x);
      StripStripped(x);
      FreeOfTail(rules, x);
      ApplyAllUntouched(rules[1..], x);
    }
  }

  /** Running two lists of rules one after the other is running their
      concatenation. */
  lemma {:induction false} ApplyAllAppend(r1: seq<Rule>, r2: seq<Rule>, x: string)
    requires ValidRules(r1) && ValidRules(r2)
    ensures ValidRules(r1 + r2) && ApplyAll(r1 + r2, x) == ApplyAll(r2, ApplyAll(r1, x))
    decreases |r1|
  {
    if |r1| > 0 {
      assert (r1 + r2)[0] == r1[0] && (r1 + r2)[1..] == r1[1..] + r2;
      ApplyAllAppend(r1[1..], r2, Apply(r1[0], x));
    } else {
      assert r1 + r2 == r2;
    }
  }

  /** The rules from place `i` up to place `k` leave alone a stripped line
      holding none of their marks. */
  lemma UntouchedRange(rules: seq<Rule>, i: nat, k: nat, x: string)
    requires ValidRules(rules) && i <= k <= |rules| && Stripped(x)
    requires forall j :: i <= j < k ==> rules[j].mark !in x
    ensures ValidRules(rules[i..k]) && ApplyAll(rules[i..k], x) == x
  {
    var rs := rules[i..k];
    assert FreeOf(x, MarksOf(rs)) by {
      forall j | 0 <= j < |rs| ensures MarksOf(rs)[j] !in x {
        assert MarksOf(rs)[j] == rs[j].mark == rules[i + j].mark;
      }
    }
    ApplyAllUntouched(rs, x);
  }

  /** Rules at the front whose marks a stripped line lacks can be skipped. */
  lemma SkipPrefix(rules: seq<Rule>, k: nat, x: string)
    requires ValidRules(rules) && k <= |rules| && Stripped(x)
    requires forall j :: 0 <= j < k ==> rules[j].mark !in x
    ensures ValidRules(rules[k..]) && ApplyAll(rules, x) == ApplyAll(rules[k..], x)
  {
    UntouchedRange(rules, 0, k, x);
    SliceSplit(rules, k);
    ApplyAllAppend(rules[..k], rules[k..], x);
  }

  /** Rules in the middle whose marks a stripped line lacks can be
      skipped. */
  lemma SkipMiddle(rules: seq<Rule>, i: nat, k: nat, x: string)
    requires ValidRules(rules) && i <= k <= |rules| && Stripped(x)
    requires forall j :: i <= j < k ==> rules[j].mark !in x
    ensures ValidRules(rules[i..]) && ValidRules(rules[k..])
    ensures ApplyAll(rules[i..], x) == ApplyAll(rules[k..], x)
  {
    UntouchedRange(rules, i, k, x);
    SliceJoin(rules, i, k);
    ApplyAllAppend(rules[i..k], rules[k..], x);
  }

  /** A rule whose mark a stripped line lacks can be skipped. */
  lemma RuleSkips(rules: seq<Rule>, k: nat, x: string)
    requires ValidRules(rules) && k < |rules| && Stripped(x) && rules[k].mark !in x
    ensures ValidRules(rules[k..]) && ValidRules(rules[k + 1..])
    ensures ApplyAll(rules[k..], x) == ApplyAll(rules[k + 1..], x)
  {
    SkipMiddle(rules, k, k + 1, x);
  }

  /** Rules at the back whose marks a stripped line lacks leave it as it
      is. */
  lemma SkipSuffix(rules: seq<Rule>, k: nat, x: string)
    requires ValidRules(rules) && k <= |rules| && Stripped(x)
    requires forall j :: k <= j < |rules| ==> rules[j].mark !in x
    ensures ValidRules(rules[k..]) && ApplyAll(rules[k..], x) == x
  {
    UntouchedRange(rules, k, |rules|, x);
    SliceSplit(rules, k);
  }

  /** The first rule runs and hands its result on. */
  lemma HeadRuleFires(rules: seq<Rule>, x: string)
    requires ValidRules(rules) && rules != []
    ensures ValidRules(rules[1..])
    ensures ApplyAll(rules, x) == ApplyAll(rules[1..], Apply(rules[0], x))
  {
  }

  /** The rule at place `k` runs and hands its result on. */
  lemma RuleFires(rules: seq<Rule>, k: nat, x: string)
    requires ValidRules(rules) && k < |rules|
    ensures ValidRules(rules[k..]) && ValidRules(rules[k + 1..])
    ensures ApplyAll(rules[k..], x) == ApplyAll(rules[k + 1..], Apply(rules[k], x))
  {
    assert rules[k..][0] == rules[k] && rules[k..][1..] == rules[k + 1..];
  }

  /** The punctuation pass changes exactly the lines that hold a full-width
      mark or are not stripped: the other lines it leaves alone. */
  lemma ConvertPunctuationUntouched(line: string)
    ensures ConvertPunctuation(line) == line <==> Stripped(line) && FreeOf(line, FullWidthMarks)
  {
    RulesFacts();
    ConvertPunctuationFree(line);
    if Stripped(line) && FreeOf(line, FullWidthMarks) {
      ApplyAllUntouched(Rules, line);
    }
  }

  /** Converting twice is converting once. */
  lemma ConvertPunctuationIdempotent(line: string)
    ensures ConvertPunctuation(ConvertPunctuation(line)) == ConvertPunctuation(line)
  {
    ConvertPunctuationFree(line);
    ConvertPunctuationUntouched(ConvertPunctuation(line));
  }

  /** A pass that adds only spaces brings back none of the marks. */
  lemma FreeOfKept(x: string, r: string)
    requires FreeOf(x, FullWidthMarks)
    requires CharsFrom(r, x, " ")
    ensures FreeOf(r, FullWidthMarks)
  {
    RulesFacts();
    forall j | 0 <= j < |FullWidthMarks| ensures FullWidthMarks[j] !in r {
      assert ValidRule(Rules[j]);
    }
  }

  /** A handled line holds none of the eleven full-width marks, neither
      begins nor ends with whitespace, and adds nothing but the ASCII
      replacements and spaces. */
  lemma HandleEverythingShape(line: string)
    ensures FreeOf(HandleEverything(line), FullWidthMarks)
    ensures Stripped(HandleEverything(line))
    ensures CharsFrom(HandleEverything(line), line, Glues)
  {
    var c := ConvertPunctuation(line);
    var s := Spaced(c);
    var r := HandleEverything(line);
    ConvertPunctuationFree(line);
    SpacedChars(c);
    FreeOfKept(c, s);
    PostProcessChars(s);
    FreeOfKept(s, r);
    SpacedStripped(c);
    PostProcessStripped(s);
    assert ' ' in Glues;
    CharsFromTrans(line, c, s, Glues);
    CharsFromTrans(line, s, r, Glues);
  }

  /** Nothing the handlers add ends a line, so a handled line is one line. */
  lemma OneLineKept(line: string, r: string)
    requires OneLine(line) && CharsFrom(r, line, Glues)
    ensures OneLine(r)
  {
    forall k | 0 <= k < |r| ensures !IsLineBoundary(r[k]) {
      assert r[k] in r;
      if r[k] in line {
        var i :| 0 <= i < |line| && line[i] == r[k];
      }
    }
  }

  // ---------------------------------------------------------------------------
  // The whole text
  // ---------------------------------------------------------------------------

  /** Handled lines hold no `'\n'`, so the output splits back into exactly the
      handled lines: one output line per input line. */
  lemma ProcessLines(text: string)
    requires SplitLines(text) != []
    ensures Split(Process(text), '\n') == MapLines(HandleEverything, SplitLines(text))
  {
    var lines := SplitLines(text);
    var out := MapLines(HandleEverything, lines);
    forall i | 0 <= i < |out| ensures '\n' !in out[i] {
      MapLinesAt(HandleEverything, lines, i);
      HandledLineUnbroken(lines[i]);
    }
    SplitJoinInverse(out, '\n');
  }

  /** A line of the text stays one line once handled. */
  lemma HandledLineUnbroken(line: string)
    requires OneLine(line)
    ensures '\n' !in HandleEverything(line)
  {
    var r := HandleEverything(line);
    HandleEverythingShape(line);
    OneLineKept(line, r);
    assert forall k :: 0 <= k < |r| ==> r[k] != '\n';
  }

  /** An empty text gives an empty text. */
  lemma ProcessEmpty()
    ensures Process("") == ""
  {
  }
}
