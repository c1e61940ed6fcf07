/**
 Worked cases of the whole line pipeline, taken from the cases the
 repository's own tests list.
 */
module NormalizerExamples {

  import opened Text
  import opened Punctuation
  import opened HandlerLaws
  import opened Spacing
  import opened PairedMarkers
  import opened Normalizer

  /** A line without `*` has no `**` pair and leaves the post-pass alone. */
  lemma NoStarUntouched(line: string)
    requires '*' !in line
    ensures PostProcessPairedMarkers(line) == line
  {
    forall j: int ensures !OccursAt(line, BoldMarker, j) {
      if 0 <= j && j + 2 <= |line| {
        assert line[j..j + 2][0] == line[j];
      }
    }
    assert Find(line, BoldMarker, 0).None?;
    PostProcessNoPair(line);
  }

  /** None of the eleven full-width marks, mark by mark. */
  predicate NoMarks(s: string) {
    '，' !in s && '、' !in s && '。' !in s && '：' !in s && '；' !in s && '？' !in s
    && '！' !in s && '（' !in s && '）' !in s && '“' !in s && '”' !in s
  }

  /** Free of the marks the handlers replace, written out. */
  lemma NoMarksFree(s: string)
    ensures NoMarks(s) <==> FreeOf(s, FullWidthMarks)
  {
    RulesListed();
    assert FullWidthMarks[0] == '，' && FullWidthMarks[1] == '、' && FullWidthMarks[2] == '。';
    assert FullWidthMarks[3] == '：' && FullWidthMarks[4] == '；' && FullWidthMarks[5] == '？';
    assert FullWidthMarks[6] == '！' && FullWidthMarks[7] == '（' && FullWidthMarks[8] == '）';
    assert FullWidthMarks[9] == '“' && FullWidthMarks[10] == '”';
    if NoMarks(s) {
      forall j | 0 <= j < |FullWidthMarks| ensures FullWidthMarks[j] !in s {
        assert j == 0 || j == 1 || j == 2 || j == 3 || j == 4 || j == 5 || j == 6 || j == 7 || j == 8 || j == 9 || j == 10;
      }
    }
  }

  /** Text with nothing for the handlers to do: stripped, non-blank, none of
      the full-width marks and no `*`. */
  predicate Bare(s: string) {
    s != [] && Stripped(s) && NoMarks(s) && '*' !in s
  }

  /** Bare text that the spacing pass also leaves alone. */
  predicate Plain(s: string) {
    Bare(s) && WellSpaced(s)
  }

  /** The marks of the handlers, in their order. */
  const MarkList: string := "，、。：；？！（）“”"

  /** The ASCII replacements of the seven separator handlers, in their
      order. */
  const SeparatorAscii: string := ",,.:;?!"

  lemma MarkListed()
    ensures |Rules| == |MarkList| && forall j :: 0 <= j < |Rules| ==> Rules[j].mark == MarkList[j]
  {
    RulesListed();
  }

  /** The punctuation pass on a line that lacks the marks of the first `k`
      handlers starts, in effect, at handler `k`. */
  lemma ConvertFrom(k: nat, x: string)
    requires k <= |MarkList| && Stripped(x)
    requires forall j :: 0 <= j < k ==> MarkList[j] !in x
    ensures ValidRules(Rules[k..]) && ConvertPunctuation(x) == ApplyAll(Rules[k..], x)
  {
    RulesFacts();
    MarkListed();
    SkipPrefix(Rules, k, x);
  }

  /** Separator handler `k` runs and hands its result on. */
  lemma SeparatorRuns(k: nat, x: string)
    requires k < |SeparatorAscii|
    ensures ValidRules(Rules[k..]) && ValidRules(Rules[k + 1..])
    ensures ApplyAll(Rules[k..], x) == ApplyAll(Rules[k + 1..], Separate(x, MarkList[k], SeparatorAscii[k]))
  {
    RulesFacts();
    RulesListed();
    assert Rules[k] == Separator(MarkList[k], SeparatorAscii[k]) by {
      assert k == 0 || k == 1 || k == 2 || k == 3 || k == 4 || k == 5 || k == 6;
    }
    RuleFires(Rules, k, x);
  }

  /** The handlers from `k` on leave alone a stripped line without their
      marks. */
  lemma ConvertDone(k: nat, x: string)
    requires k <= |MarkList| && Stripped(x)
    requires forall j :: k <= j < |MarkList| ==> MarkList[j] !in x
    ensures ValidRules(Rules[k..]) && ApplyAll(Rules[k..], x) == x
  {
    RulesFacts();
    MarkListed();
    SkipSuffix(Rules, k, x);
  }

  /** From separator `k` on, only that separator has work to do. */
  lemma SeparatorLast(k: nat, x: string, y: string)
    requires k < |SeparatorAscii| && Stripped(y)
    requires Separate(x, MarkList[k], SeparatorAscii[k]) == y
    requires forall j :: k < j < |MarkList| ==> MarkList[j] !in y
    ensures ValidRules(Rules[k..]) && ApplyAll(Rules[k..], x) == y
  {
    SeparatorRuns(k, x);
    ConvertDone(k + 1, y);
  }

  /** Separator `k` runs, then the handlers after it. */
  lemma SeparatorThen(k: nat, x: string, y: string, r: string)
    requires k < |SeparatorAscii|
    requires Separate(x, MarkList[k], SeparatorAscii[k]) == y
    requires ValidRules(Rules[k + 1..]) && ApplyAll(Rules[k + 1..], y) == r
    ensures ValidRules(Rules[k..]) && ApplyAll(Rules[k..], x) == r
  {
    SeparatorRuns(k, x);
  }

  /** Each separator's mark and replacement are distinct non-space
      characters. */
  lemma SeparatorPairs(k: nat)
    requires k < |SeparatorAscii|
    ensures SeparatorMarks(MarkList[k], SeparatorAscii[k])
  {
    assert k == 0 || k == 1 || k == 2 || k == 3 || k == 4 || k == 5 || k == 6;
  }

  /** Separator `k` between two stripped texts without its mark becomes its
      ASCII mark and a space; then the handlers after it run. */
  lemma SeparatorStep(k: nat, m: char, asc: char, a: string, t: string, r: string)
    requires k < |SeparatorAscii| && MarkList[k] == m && SeparatorAscii[k] == asc
    requires a != [] && t != [] && Stripped(a) && Stripped(t) && m !in a && m !in t
    requires ValidRules(Rules[k + 1..]) && ApplyAll(Rules[k + 1..], a + [asc, ' '] + t) == r
    ensures ValidRules(Rules[k..]) && ApplyAll(Rules[k..], a + [m] + t) == r
  {
    SeparatorPairs(k);
    SeparateOnce(a, t, m, asc);
    SeparatorThen(k, a + [m] + t, a + [asc, ' '] + t, r);
  }


  /** The marks and their replacements, one by one. */
  lemma MarkChars()
    ensures MarkList[0] == '，' && MarkList[1] == '、' && MarkList[2] == '。' && MarkList[3] == '：'
    ensures MarkList[4] == '；'
    ensures SeparatorAscii[0] == ',' && SeparatorAscii[2] == '.' && SeparatorAscii[3] == ':'
    ensures SeparatorAscii[4] == ';'
  {
  }

  /** The comma handler comes first and splits at the full-width comma. */
  lemma CommaFirst(x: string)
    ensures ValidRules(Rules) && ValidRules(Rules[1..])
    ensures ApplyAll(Rules, x) == ApplyAll(Rules[1..], Separate(x, '，', ','))
  {
    RulesListed();
    RulesFacts();
    HeadRuleFires(Rules, x);
  }

  /** Once the comma handler has split the line, the handlers after it
      finish the work. */
  lemma CommaRuns(x: string, y: string, r: string)
    requires Separate(x, '，', ',') == y
    requires ValidRules(Rules[1..]) && ApplyAll(Rules[1..], y) == r
    ensures ValidRules(Rules) && ApplyAll(Rules, x) == r
  {
    CommaFirst(x);
  }

  /** The same, as the punctuation pass. */
  lemma CommaStep(a: string, t: string, r: string)
    requires a != [] && t != [] && Stripped(a) && Stripped(t) && '，' !in a && '，' !in t
    requires ValidRules(Rules[1..]) && ApplyAll(Rules[1..], a + [',', ' '] + t) == r
    ensures ConvertPunctuation(a + ['，'] + t) == r
  {
    CommaSplits(a, t);
    CommaRuns(a + ['，'] + t, a + [',', ' '] + t, r);
  }

  /** The comma handler on one comma between stripped texts. */
  lemma CommaSplits(a: string, t: string)
    requires a != [] && t != [] && Stripped(a) && Stripped(t) && '，' !in a && '，' !in t
    ensures Separate(a + ['，'] + t, '，', ',') == a + [',', ' '] + t
  {
    SeparateOnce(a, t, '，', ',');
  }


  /** The full stop between two stripped texts without it. */
  lemma StopStep(a: string, t: string, r: string)
    requires a != [] && t != [] && Stripped(a) && Stripped(t) && '。' !in a && '。' !in t
    requires ValidRules(Rules[3..]) && ApplyAll(Rules[3..], a + ['.', ' '] + t) == r
    ensures ValidRules(Rules[2..]) && ApplyAll(Rules[2..], a + ['。'] + t) == r
  {
    MarkChars();
    SeparatorStep(2, '。', '.', a, t, r);
  }

  /** The full-width colon between two stripped texts without it. */
  lemma ColonStep(a: string, t: string, r: string)
    requires a != [] && t != [] && Stripped(a) && Stripped(t) && '：' !in a && '：' !in t
    requires ValidRules(Rules[4..]) && ApplyAll(Rules[4..], a + [':', ' '] + t) == r
    ensures ValidRules(Rules[3..]) && ApplyAll(Rules[3..], a + ['：'] + t) == r
  {
    MarkChars();
    SeparatorStep(3, '：', ':', a, t, r);
  }

  /** The full-width semicolon between two stripped texts without it. */
  lemma SemicolonStep(a: string, t: string, r: string)
    requires a != [] && t != [] && Stripped(a) && Stripped(t) && '；' !in a && '；' !in t
    requires ValidRules(Rules[5..]) && ApplyAll(Rules[5..], a + [';', ' '] + t) == r
    ensures ValidRules(Rules[4..]) && ApplyAll(Rules[4..], a + ['；'] + t) == r
  {
    MarkChars();
    SeparatorStep(4, '；', ';', a, t, r);
  }

  /** The colon handler on two colons between stripped texts. */
  lemma ColonSplitsTwice(a: string, b: string, c: string)
    requires a != [] && b != [] && c != [] && Stripped(a) && Stripped(b) && Stripped(c)
    requires '：' !in a && '：' !in b && '：' !in c
    ensures Separate(a + ['：'] + b + ['：'] + c, '：', ':') == a + [':', ' '] + b + [':', ' '] + c
  {
    SeparateTwice(a, b, c, '：', ':');
  }

  /** Once the colon handler has split the line, the handlers after it
      finish the work. */
  lemma ColonThen(x: string, y: string, r: string)
    requires Separate(x, '：', ':') == y
    requires ValidRules(Rules[4..]) && ApplyAll(Rules[4..], y) == r
    ensures ValidRules(Rules[3..]) && ApplyAll(Rules[3..], x) == r
  {
    MarkChars();
    SeparatorThen(3, x, y, r);
  }

  /** Two full-width colons among three stripped texts without them. */
  lemma ColonTwiceStep(a: string, b: string, c: string, r: string)
    requires a != [] && b != [] && c != [] && Stripped(a) && Stripped(b) && Stripped(c)
    requires '：' !in a && '：' !in b && '：' !in c
    requires ValidRules(Rules[4..]) && ApplyAll(Rules[4..], a + [':', ' '] + b + [':', ' '] + c) == r
    ensures ValidRules(Rules[3..]) && ApplyAll(Rules[3..], a + ['：'] + b + ['：'] + c) == r
  {
    ColonSplitsTwice(a, b, c);
    ColonThen(a + ['：'] + b + ['：'] + c, a + [':', ' '] + b + [':', ' '] + c, r);
  }

  /** A line without the two comma marks is converted like the handlers from
      the full stop on convert it. */
  lemma FromStop(x: string, r: string)
    requires Stripped(x) && '，' !in x && '、' !in x
    requires ValidRules(Rules[2..]) && ApplyAll(Rules[2..], x) == r
    ensures ConvertPunctuation(x) == r
  {
    NoCommaMarks(x);
    ConvertedFrom(2, x, r);
  }

  /** The first two handlers' marks, written out. */
  lemma NoCommaMarks(x: string)
    requires '，' !in x && '、' !in x
    ensures forall j :: 0 <= j < 2 ==> MarkList[j] !in x
  {
    forall j | 0 <= j < 2 ensures MarkList[j] !in x {
      MarkChars();
    }
  }

  /** The enumeration comma handler finds nothing in a line without it. */
  lemma NoEnumeration(x: string, r: string)
    requires Stripped(x) && '、' !in x
    requires ValidRules(Rules[2..]) && ApplyAll(Rules[2..], x) == r
    ensures ValidRules(Rules[1..]) && ApplyAll(Rules[1..], x) == r
  {
    MarkChars();
    SkipOne(1, x, r);
  }

  /** A text without marks lacks those of the handlers from `k` on. */
  lemma NoMarksFrom(k: nat, s: string)
    requires NoMarks(s)
    ensures forall j :: k <= j < |MarkList| ==> MarkList[j] !in s
  {
    forall j | k <= j < |MarkList| ensures MarkList[j] !in s {
      assert j == 0 || j == 1 || j == 2 || j == 3 || j == 4 || j == 5 || j == 6 || j == 7 || j == 8 || j == 9 || j == 10;
    }
  }

  /** Neither half of a concatenation holds a mark exactly when the whole
      does not. */
  lemma NoMarksJoin(s: string, t: string)
    ensures NoMarks(s + t) <==> NoMarks(s) && NoMarks(t)
  {
  }

  /** Handlers `i` up to `k` find nothing to do. */
  lemma SkipBetween(i: nat, k: nat, x: string, r: string)
    requires i <= k <= |MarkList| && Stripped(x)
    requires forall j :: i <= j < k ==> MarkList[j] !in x
    requires ValidRules(Rules[k..]) && ApplyAll(Rules[k..], x) == r
    ensures ValidRules(Rules[i..]) && ApplyAll(Rules[i..], x) == r
  {
    RulesFacts();
    MarkListed();
    SkipMiddle(Rules, i, k, x);
  }

  /** Handler `k` finds nothing to do. */
  lemma SkipOne(k: nat, x: string, r: string)
    requires k < |MarkList| && Stripped(x) && MarkList[k] !in x
    requires ValidRules(Rules[k + 1..]) && ApplyAll(Rules[k + 1..], x) == r
    ensures ValidRules(Rules[k..]) && ApplyAll(Rules[k..], x) == r
  {
    RulesFacts();
    MarkListed();
    RuleSkips(Rules, k, x);
  }

  /** A line the handlers before `k` leave alone is converted like the
      handlers from `k` on convert it. */
  lemma ConvertedFrom(k: nat, x: string, y: string)
    requires k <= |MarkList| && Stripped(x)
    requires forall j :: 0 <= j < k ==> MarkList[j] !in x
    requires ValidRules(Rules[k..]) && ApplyAll(Rules[k..], x) == y
    ensures ConvertPunctuation(x) == y
  {
    ConvertFrom(k, x);
  }

  /** A separator between two stripped texts without the mark becomes the
      ASCII mark and one space. */
  lemma SeparateOnce(a: string, b: string, m: char, asc: char)
    requires SeparatorMarks(m, asc)
    requires a != [] && b != [] && Stripped(a) && Stripped(b) && m !in a && m !in b
    ensures Separate(a + [m] + b, m, asc) == a + [asc, ' '] + b
  {
    assert !Blank(a) by {
      assert !IsSpace(a[0]);
    }
    assert HasText(b, m) by {
      assert !IsSpace(b[0]) && b[0] != m;
    }
    SeparateSplit(a, b, m, asc);
    SeparateNoMark(b, m, asc);
    StripStripped(a);
    StripStripped(b);
  }

  /** The same separator twice. */
  lemma SeparateTwice(a: string, b: string, c: string, m: char, asc: char)
    requires SeparatorMarks(m, asc)
    requires a != [] && b != [] && c != [] && Stripped(a) && Stripped(b) && Stripped(c)
    requires m !in a && m !in b && m !in c
    ensures Separate(a + [m] + b + [m] + c, m, asc) == a + [asc, ' '] + b + [asc, ' '] + c
  {
    var rest := b + [m] + c;
    assert a + [m] + b + [m] + c == a + [m] + rest;
    assert !Blank(a) by {
      assert !IsSpace(a[0]);
    }
    assert HasText(rest, m) by {
      assert rest[0] == b[0] && !IsSpace(b[0]) && b[0] != m;
    }
    SeparateSplit(a, rest, m, asc);
    StripStripped(a);
    SeparateOnce(b, c, m, asc);
    Regroup5(a, [asc, ' '], b, [asc, ' '], c);
  }

  /** Two plain phrases joined by `, ` make plain text again. */
  lemma PlainJoin(a: string, b: string)
    requires Plain(a) && Plain(b)
    ensures Plain(a + ", " + b)
  {
    var c := a + ", " + b;
    assert WellSpaced(c) by {
      forall i | 0 < i < |c| ensures !NeedsSpace(c[i - 1], c[i]) {
        if i < |a| {
          assert c[i - 1] == a[i - 1] && c[i] == a[i];
        } else if i > |a| + 2 {
          assert c[i - 1] == b[i - 1 - |a| - 2] && c[i] == b[i - |a| - 2];
        }
      }
    }
    assert c[0] == a[0] && c[|c| - 1] == b[|b| - 1];
  }

  /** The first handler turns the comma into `, `. */
  lemma CommaSeparated(a: string, b: string)
    requires Plain(a) && Plain(b)
    ensures ValidRule(Rules[0]) && Apply(Rules[0], a + "，" + b) == a + ", " + b
  {
    RulesListed();
    RulesFacts();
    SeparateOnce(a, b, '，', ',');
  }

  /** The punctuation pass turns the comma into `, ` and changes nothing
      else. */
  lemma CommaConverted(a: string, b: string)
    requires Plain(a) && Plain(b)
    ensures ConvertPunctuation(a + "，" + b) == a + ", " + b
  {
    var line := a + "，" + b;
    var c := a + ", " + b;
    CommaSeparated(a, b);
    PlainJoin(a, b);
    NoMarksFree(c);
    RestUntouched(c);
    ConvertPunctuationFirst(line);
  }

  /** Text holding none of the marks passes the handlers after the first. */
  lemma RestUntouched(c: string)
    requires Stripped(c) && FreeOf(c, FullWidthMarks)
    ensures ValidRules(Rules[1..]) && ApplyAll(Rules[1..], c) == c
  {
    RulesFacts();
    assert FreeOf(c, MarksOf(Rules[1..])) by {
      forall j | 0 <= j < |Rules| - 1 ensures MarksOf(Rules[1..])[j] !in c {
        assert MarksOf(Rules[1..])[j] == FullWidthMarks[j + 1];
      }
    }
    ApplyAllUntouched(Rules[1..], c);
  }

  /** Two plain phrases around a full-width comma come out around `, `. */
  lemma CommaBetween(a: string, b: string)
    requires Plain(a) && Plain(b)
    ensures HandleEverything(a + "，" + b) == a + ", " + b
  {
    var c := a + ", " + b;
    CommaConverted(a, b);
    PlainJoin(a, b);
    SpacedUnchanged(c);
    NoStarUntouched(c);
  }

  /** `你好，世界` becomes `你好, 世界`. */
  lemma CommaExample()
    ensures HandleEverything("你好，世界") == "你好, 世界"
  {
    var a := "你好";
    var b := "世界";
    assert a + "，" + b == "你好，世界" && a + ", " + b == "你好, 世界" by {
      assert |a + "，" + b| == 5 && |a + ", " + b| == 6;
    }
    assert Plain(a) && Plain(b) by {
      assert NoMarks(a) && NoMarks(b);
      assert WellSpaced(a) && WellSpaced(b);
    }
    CommaBetween(a, b);
  }

  // ---------------------------------------------------------------------------
  // A bold heading ending in a colon
  // ---------------------------------------------------------------------------

  /** From the colon handler on, only the colon before the closing `**` is
      changed, into `: `. */
  lemma BoldHeadingColon(a: string)
    requires Bare(a)
    ensures ValidRules(Rules[3..]) && ApplyAll(Rules[3..], "**" + a + "：**") == "**" + a + ": **"
  {
    var line := "**" + a + "：**";
    var h := "**" + a;
    var c := h + ": **";
    assert line == h + ['：'] + "**";
    assert Stripped(h) && Stripped(c) by {
      assert h[0] == '*' && h[|h| - 1] == a[|a| - 1] && c[0] == '*' && c[|c| - 1] == '*';
    }
    forall j | 3 < j < |MarkList| ensures MarkList[j] !in c {
      assert j == 4 || j == 5 || j == 6 || j == 7 || j == 8 || j == 9 || j == 10;
    }
    assert MarkList[3] == '：' && SeparatorAscii[3] == ':';
    assert h + [':', ' '] + "**" == c;
    SeparateOnce(h, "**", '：', ':');
    SeparatorLast(3, line, c);
  }

  /** The punctuation pass changes only the colon before the closing `**`,
      into `: `. */
  lemma BoldHeadingConverted(a: string)
    requires Bare(a)
    ensures ConvertPunctuation("**" + a + "：**") == "**" + a + ": **"
  {
    var line := "**" + a + "：**";
    assert Stripped(line) by {
      assert line[0] == '*' && line[|line| - 1] == '*';
    }
    forall j | 0 <= j < 3 ensures MarkList[j] !in line {
      assert j == 0 || j == 1 || j == 2;
    }
    BoldHeadingColon(a);
    ConvertedFrom(3, line, "**" + a + ": **");
  }

  /** The spacing pass leaves the converted heading alone. */
  lemma BoldHeadingSpaced(a: string)
    requires Plain(a)
    ensures Spaced("**" + a + ": **") == "**" + a + ": **"
  {
    SpacedUnchanged(a);
    SpacedPunctBefore("**", a);
    SpacedPunctAfter("**" + a, ": **");
  }

  /** The post-pass drops the space before the closing `**`. */
  lemma BoldHeadingPaired(a: string)
    requires Plain(a)
    ensures PostProcessPairedMarkers("**" + a + ": **") == "**" + a + ":**"
  {
    assert [] + "**" + (a + ": ") + "**" + [] == "**" + a + ": **";
    assert [] + "**" + (a + ":") + "**" + [] == "**" + a + ":**";
    assert a + ":" + " " == a + ": ";
    assert (a + ":")[0] == a[0];
    PostProcessOnePair([], a + ": ", []);
    TrimOneTrailingSpace(a + ":");
  }

  /** A bold heading that ends in a full-width colon keeps the colon inside
      the `**`, as an ASCII colon with no space after it. */
  lemma BoldHeading(a: string)
    requires Plain(a)
    ensures HandleEverything("**" + a + "：**") == "**" + a + ":**"
  {
    BoldHeadingConverted(a);
    BoldHeadingSpaced(a);
    BoldHeadingPaired(a);
  }

  /** `**参考资料：**` becomes `**参考资料:**`. */
  lemma BoldHeadingExample()
    ensures HandleEverything("**参考资料：**") == "**参考资料:**"
  {
    var a := "参考资料";
    assert "**" + a + "：**" == "**参考资料：**" && "**" + a + ":**" == "**参考资料:**";
    assert Plain(a) by {
      assert NoMarks(a) && WellSpaced(a);
    }
    BoldHeading(a);
  }

  /** The ASCII separators with their spaces and markers are punctuation
      throughout. */
  lemma PunctSeparators()
    ensures forall i :: 0 <= i < |": **"| ==> Punct(": **"[i])
    ensures forall i :: 0 <= i < |", "| ==> Punct(", "[i])
    ensures forall i :: 0 <= i < |". **"| ==> Punct(". **"[i])
    ensures forall i :: 0 <= i < |": "| ==> Punct(": "[i])
    ensures forall i :: 0 <= i < |"; "| ==> Punct("; "[i])
    ensures forall i :: 0 <= i < |". "| ==> Punct(". "[i])
  {
  }

  // ---------------------------------------------------------------------------
  // A colon before a bold sentence
  // ---------------------------------------------------------------------------

  /** How the line regroups around the mark each handler splits at. */
  lemma ColonBoldShape(a: string, b: string, c: string)
    ensures a + "：**" + b + "，" + c + "。**" == (a + "：**" + b) + ['，'] + (c + "。**")
    ensures (a + "：**" + b) + [',', ' '] + (c + "。**") == (a + "：**" + b + ", " + c) + ['。'] + "**"
    ensures (a + "：**" + b + ", " + c) + ['.', ' '] + "**" == a + ['：'] + ("**" + b + ", " + c + ". **")
    ensures a + [':', ' '] + ("**" + b + ", " + c + ". **") == a + ": **" + b + ", " + c + ". **"
  {
  }

  /** The parts the comma handler sees are stripped and hold no comma. */
  lemma ColonBoldCommaParts(a: string, b: string, c: string)
    requires Bare(a) && Bare(b) && Bare(c)
    ensures Stripped(a + "：**" + b + "，" + c + "。**")
    ensures Stripped(a + "：**" + b) && '，' !in a + "：**" + b
    ensures Stripped(c + "。**") && '，' !in c + "。**"
  {
  }

  /** The parts the full stop handler sees are stripped and hold no full
      stop, and the enumeration comma is nowhere. */
  lemma ColonBoldStopParts(a: string, b: string, c: string)
    requires Bare(a) && Bare(b) && Bare(c)
    ensures Stripped(a + "：**" + b + ", " + c + "。**") && '、' !in a + "：**" + b + ", " + c + "。**"
    ensures Stripped(a + "：**" + b + ", " + c) && '。' !in a + "：**" + b + ", " + c
  {
  }

  /** The part after the colon is stripped and holds no colon; the result is
      stripped. */
  lemma ColonBoldColonParts(a: string, b: string, c: string)
    requires Bare(a) && Bare(b) && Bare(c)
    ensures Stripped("**" + b + ", " + c + ". **") && '：' !in "**" + b + ", " + c + ". **"
    ensures Stripped(a + ": **" + b + ", " + c + ". **")
  {
  }

  /** The result holds none of the marks. */
  lemma ColonBoldResultMarks(a: string, b: string, c: string)
    requires Bare(a) && Bare(b) && Bare(c)
    ensures NoMarks(a + ": **" + b + ", " + c + ". **")
  {
    assert NoMarks(": **") && NoMarks(", ") && NoMarks(". **");
    NoMarksJoin(a, ": **");
    NoMarksJoin(a + ": **", b);
    NoMarksJoin(a + ": **" + b, ", ");
    NoMarksJoin(a + ": **" + b + ", ", c);
    NoMarksJoin(a + ": **" + b + ", " + c, ". **");
  }

  /** From the colon handler on, only the colon changes, into `: `. */
  lemma ColonBoldColon(a: string, b: string, c: string)
    requires Bare(a) && Bare(b) && Bare(c)
    ensures ValidRules(Rules[3..])
    ensures ApplyAll(Rules[3..], a + ['：'] + ("**" + b + ", " + c + ". **")) == a + ": **" + b + ", " + c + ". **"
  {
    var y := a + ": **" + b + ", " + c + ". **";
    ColonBoldShape(a, b, c);
    ColonBoldColonParts(a, b, c);
    ColonBoldResultMarks(a, b, c);
    NoMarksFrom(4, y);
    ConvertDone(4, y);
    ColonStep(a, "**" + b + ", " + c + ". **", y);
  }

  /** From the enumeration comma handler on: the full stop, then the
      colon. */
  lemma ColonBoldStop(a: string, b: string, c: string)
    requires Bare(a) && Bare(b) && Bare(c)
    ensures ValidRules(Rules[1..])
    ensures ApplyAll(Rules[1..], (a + "：**" + b + ", " + c) + ['。'] + "**") == a + ": **" + b + ", " + c + ". **"
  {
    var h := a + "：**" + b + ", " + c;
    var y := a + ": **" + b + ", " + c + ". **";
    ColonBoldShape(a, b, c);
    ColonBoldStopParts(a, b, c);
    ColonBoldColon(a, b, c);
    StopStep(h, "**", y);
    NoEnumeration(h + ['。'] + "**", y);
  }


  /** The punctuation pass on a colon before a bold sentence. */
  lemma ColonBoldConverted(a: string, b: string, c: string)
    requires Bare(a) && Bare(b) && Bare(c)
    ensures ConvertPunctuation(a + "：**" + b + "，" + c + "。**") == a + ": **" + b + ", " + c + ". **"
  {
    ColonBoldShape(a, b, c);
    ColonBoldCommaParts(a, b, c);
    ColonBoldStop(a, b, c);
    CommaStep(a + "：**" + b, c + "。**", a + ": **" + b + ", " + c + ". **");
  }

  /** The spacing pass keeps punctuation as it is and the phrases are
      already spaced. */
  lemma ColonBoldSpaced(a: string, b: string, c: string)
    requires Plain(a) && Plain(b) && Plain(c)
    ensures Spaced(a + ": **" + b + ", " + c + ". **") == a + ": **" + b + ", " + c + ". **"
  {
    SpacedUnchanged(a);
    SpacedUnchanged(b);
    SpacedUnchanged(c);
    ColonBoldSpacedParts(a, b, c);
  }

  /** The same, from phrases the spacing pass keeps. */
  lemma ColonBoldSpacedParts(a: string, b: string, c: string)
    requires a != [] && b != [] && c != []
    requires Spaced(a) == a && Spaced(b) == b && Spaced(c) == c
    ensures Spaced(a + ": **" + b + ", " + c + ". **") == a + ": **" + b + ", " + c + ". **"
  {
    PunctSeparators();
    SpacedAround(a, ": **", b);
    SpacedAround(a + ": **" + b, ", ", c);
    SpacedPunctAfter(a + ": **" + b + ", " + c, ". **");
  }

  /** The post-pass drops the space before the closing `**`. */
  lemma ColonBoldPaired(a: string, b: string, c: string)
    requires Plain(a) && Plain(b) && Plain(c)
    ensures PostProcessPairedMarkers(a + ": **" + b + ", " + c + ". **") == a + ": **" + b + ", " + c + ".**"
  {
    var w := b + ", " + c + ".";
    assert (a + ": ") + "**" + (b + ", " + c + ". ") + "**" + [] == a + ": **" + b + ", " + c + ". **";
    assert (a + ": ") + "**" + w + "**" + [] == a + ": **" + b + ", " + c + ".**";
    assert w + " " == b + ", " + c + ". " && w[0] == b[0];
    PostProcessOnePair(a + ": ", b + ", " + c + ". ", []);
    TrimOneTrailingSpace(w);
  }

  /** A colon followed by a bold sentence: the colon goes outside the `**`
      with a space after it, and the sentence's own punctuation stays
      inside, the full stop right before the closing `**`. */
  lemma ColonBold(a: string, b: string, c: string)
    requires Plain(a) && Plain(b) && Plain(c)
    ensures HandleEverything(a + "：**" + b + "，" + c + "。**") == a + ": **" + b + ", " + c + ".**"
  {
    ColonBoldConverted(a, b, c);
    ColonBoldSpaced(a, b, c);
    ColonBoldPaired(a, b, c);
  }

  /** `注意：**这很着急，也很重要。**` becomes `注意: **这很着急, 也很重要.**`. */
  lemma ColonBoldExample()
    ensures HandleEverything("注意：**这很着急，也很重要。**") == "注意: **这很着急, 也很重要.**"
  {
    ColonBoldExampleLine();
    ColonBoldExampleWords();
    ColonBold("注意", "这很着急", "也很重要");
  }

  /** The line of the example, cut at its marks. */
  lemma ColonBoldExampleLine()
    ensures "注意" + "：**" + "这很着急" + "，" + "也很重要" + "。**" == "注意：**这很着急，也很重要。**"
    ensures "注意" + ": **" + "这很着急" + ", " + "也很重要" + ".**" == "注意: **这很着急, 也很重要.**"
  {
  }

  /** A phrase of CJK unified ideographs is plain. */
  lemma HanPlain(s: string)
    requires s != [] && forall i :: 0 <= i < |s| ==> 0x4E00 <= s[i] as int <= 0x9FFF
    ensures Plain(s)
  {
    assert NoMarks(s);
  }

  /** The phrases of the example are plain. */
  lemma ColonBoldExampleWords()
    ensures Plain("注意") && Plain("这很着急") && Plain("也很重要")
  {
    HanPlain("注意");
    HanPlain("这很着急");
    HanPlain("也很重要");
  }


  // ---------------------------------------------------------------------------
  // Labelled values: `label：value；label：value。sentence`
  // ---------------------------------------------------------------------------

  /** How the line regroups around the mark each handler splits at. */
  lemma LabelsShape(p: string, q: string, r: string, s: string, t: string)
    ensures p + "：" + q + "；" + r + "：" + s + "。" + t == (p + "：" + q + "；" + r + "：" + s) + ['。'] + t
    ensures (p + "：" + q + "；" + r + "：" + s) + ['.', ' '] + t == p + ['：'] + (q + "；" + r) + ['：'] + (s + ". " + t)
    ensures p + [':', ' '] + (q + "；" + r) + [':', ' '] + (s + ". " + t) == (p + ": " + q) + ['；'] + (r + ": " + s + ". " + t)
    ensures (p + ": " + q) + [';', ' '] + (r + ": " + s + ". " + t) == p + ": " + q + "; " + r + ": " + s + ". " + t
  {
  }

  /** The parts the full stop handler sees are stripped and hold no full
      stop; the line has neither comma mark. */
  lemma LabelsStopParts(p: string, q: string, r: string, s: string, t: string)
    requires Bare(p) && Bare(q) && Bare(r) && Bare(s) && Bare(t)
    ensures Stripped(p + "：" + q + "；" + r + "：" + s + "。" + t)
    ensures '，' !in p + "：" + q + "；" + r + "：" + s + "。" + t
    ensures '、' !in p + "：" + q + "；" + r + "：" + s + "。" + t
    ensures Stripped(p + "：" + q + "；" + r + "：" + s) && '。' !in p + "：" + q + "；" + r + "：" + s
  {
  }

  /** The parts the colon handler sees are stripped and hold no colon. */
  lemma LabelsColonParts(p: string, q: string, r: string, s: string, t: string)
    requires Bare(p) && Bare(q) && Bare(r) && Bare(s) && Bare(t)
    ensures Stripped(q + "；" + r) && '：' !in q + "；" + r
    ensures Stripped(s + ". " + t) && '：' !in s + ". " + t
  {
  }

  /** The parts the semicolon handler sees are stripped and hold no
      semicolon. */
  lemma LabelsSemicolonParts(p: string, q: string, r: string, s: string, t: string)
    requires Bare(p) && Bare(q) && Bare(r) && Bare(s) && Bare(t)
    ensures Stripped(p + ": " + q) && '；' !in p + ": " + q
    ensures Stripped(r + ": " + s + ". " + t) && '；' !in r + ": " + s + ". " + t
  {
  }

  /** The converted line is stripped and holds neither a mark nor `*`. */
  lemma LabelsResultMarks(p: string, q: string, r: string, s: string, t: string)
    requires Bare(p) && Bare(q) && Bare(r) && Bare(s) && Bare(t)
    ensures Stripped(p + ": " + q + "; " + r + ": " + s + ". " + t)
    ensures NoMarks(p + ": " + q + "; " + r + ": " + s + ". " + t)
    ensures '*' !in p + ": " + q + "; " + r + ": " + s + ". " + t
  {
    assert NoMarks(": ") && NoMarks("; ") && NoMarks(". ");
    NoMarksJoin(p, ": ");
    NoMarksJoin(p + ": ", q);
    NoMarksJoin(p + ": " + q, "; ");
    NoMarksJoin(p + ": " + q + "; ", r);
    NoMarksJoin(p + ": " + q + "; " + r, ": ");
    NoMarksJoin(p + ": " + q + "; " + r + ": ", s);
    NoMarksJoin(p + ": " + q + "; " + r + ": " + s, ". ");
    NoMarksJoin(p + ": " + q + "; " + r + ": " + s + ". ", t);
  }

  /** From the semicolon handler on, only the semicolon changes. */
  lemma LabelsSemicolon(p: string, q: string, r: string, s: string, t: string)
    requires Bare(p) && Bare(q) && Bare(r) && Bare(s) && Bare(t)
    ensures ValidRules(Rules[4..])
    ensures ApplyAll(Rules[4..], p + [':', ' '] + (q + "；" + r) + [':', ' '] + (s + ". " + t))
      == p + ": " + q + "; " + r + ": " + s + ". " + t
  {
    var y := p + ": " + q + "; " + r + ": " + s + ". " + t;
    LabelsShape(p, q, r, s, t);
    LabelsSemicolonParts(p, q, r, s, t);
    LabelsResultMarks(p, q, r, s, t);
    NoMarksFrom(5, y);
    ConvertDone(5, y);
    SemicolonStep(p + ": " + q, r + ": " + s + ". " + t, y);
  }

  /** From the colon handler on: both colons, then the semicolon. */
  lemma LabelsColons(p: string, q: string, r: string, s: string, t: string)
    requires Bare(p) && Bare(q) && Bare(r) && Bare(s) && Bare(t)
    ensures ValidRules(Rules[3..])
    ensures ApplyAll(Rules[3..], (p + "：" + q + "；" + r + "：" + s) + ['.', ' '] + t)
      == p + ": " + q + "; " + r + ": " + s + ". " + t
  {
    var y := p + ": " + q + "; " + r + ": " + s + ". " + t;
    LabelsShape(p, q, r, s, t);
    LabelsColonParts(p, q, r, s, t);
    LabelsSemicolon(p, q, r, s, t);
    ColonTwiceStep(p, q + "；" + r, s + ". " + t, y);
  }

  /** From the full stop handler on: the full stop, the colons, then the
      semicolon. */
  lemma LabelsStop(p: string, q: string, r: string, s: string, t: string)
    requires Bare(p) && Bare(q) && Bare(r) && Bare(s) && Bare(t)
    ensures ValidRules(Rules[2..])
    ensures ApplyAll(Rules[2..], (p + "：" + q + "；" + r + "：" + s) + ['。'] + t)
      == p + ": " + q + "; " + r + ": " + s + ". " + t
  {
    var y := p + ": " + q + "; " + r + ": " + s + ". " + t;
    LabelsStopParts(p, q, r, s, t);
    LabelsColons(p, q, r, s, t);
    StopStep(p + "：" + q + "；" + r + "：" + s, t, y);
  }

  /** The punctuation pass on labelled values: each mark becomes its ASCII
      form and one space. */
  lemma LabelsConverted(p: string, q: string, r: string, s: string, t: string)
    requires Bare(p) && Bare(q) && Bare(r) && Bare(s) && Bare(t)
    ensures ConvertPunctuation(p + "：" + q + "；" + r + "：" + s + "。" + t)
      == p + ": " + q + "; " + r + ": " + s + ". " + t
  {
    LabelsShape(p, q, r, s, t);
    LabelsStopParts(p, q, r, s, t);
    LabelsStop(p, q, r, s, t);
    FromStop(p + "：" + q + "；" + r + "：" + s + "。" + t, p + ": " + q + "; " + r + ": " + s + ". " + t);
  }

  /** The spacing pass works on each piece and leaves the separators as
      they are. */
  lemma LabelsSpaced(p: string, q: string, r: string, s: string, t: string)
    requires p != [] && q != [] && r != [] && s != [] && t != []
    ensures Spaced(p + ": " + q + "; " + r + ": " + s + ". " + t)
      == Spaced(p) + ": " + Spaced(q) + "; " + Spaced(r) + ": " + Spaced(s) + ". " + Spaced(t)
  {
    PunctSeparators();
    SpacedAround(p, ": ", q);
    SpacedAround(p + ": " + q, "; ", r);
    SpacedAround(p + ": " + q + "; " + r, ": ", s);
    SpacedAround(p + ": " + q + "; " + r + ": " + s, ". ", t);
  }

  /** The whole pipeline on a line whose converted form holds no `*`: the
      post-pass finds nothing to do. */
  lemma NoStarPipeline(x: string, y: string, z: string)
    requires ConvertPunctuation(x) == y && Spaced(y) == z && '*' !in y
    ensures HandleEverything(x) == z
  {
    SpacedNoStar(y);
    NoStarUntouched(z);
  }

  /** Spacing adds no `*`. */
  lemma SpacedNoStar(y: string)
    requires '*' !in y
    ensures '*' !in Spaced(y)
  {
    SpacedChars(y);
  }

  /** Labelled values, `label：value；label：value。sentence`: each mark
      becomes its ASCII form and one space, and each piece is spaced on its
      own. */
  lemma Labels(p: string, q: string, r: string, s: string, t: string)
    requires Bare(p) && Bare(q) && Bare(r) && Bare(s) && Bare(t)
    ensures HandleEverything(p + "：" + q + "；" + r + "：" + s + "。" + t)
      == Spaced(p) + ": " + Spaced(q) + "; " + Spaced(r) + ": " + Spaced(s) + ". " + Spaced(t)
  {
    LabelsConverted(p, q, r, s, t);
    LabelsResultMarks(p, q, r, s, t);
    LabelsFinish(p + "：" + q + "；" + r + "：" + s + "。" + t, p, q, r, s, t);
  }

  /** Spacing and the post-pass after the punctuation pass. */
  lemma LabelsFinish(x: string, p: string, q: string, r: string, s: string, t: string)
    requires p != [] && q != [] && r != [] && s != [] && t != []
    requires ConvertPunctuation(x) == p + ": " + q + "; " + r + ": " + s + ". " + t
    requires '*' !in p + ": " + q + "; " + r + ": " + s + ". " + t
    ensures HandleEverything(x) == Spaced(p) + ": " + Spaced(q) + "; " + Spaced(r) + ": " + Spaced(s) + ". " + Spaced(t)
  {
    LabelsSpaced(p, q, r, s, t);
    NoStarPipeline(x, p + ": " + q + "; " + r + ": " + s + ". " + t,
      Spaced(p) + ": " + Spaced(q) + "; " + Spaced(r) + ": " + Spaced(s) + ". " + Spaced(t));
  }

  /** A run of ASCII digits is plain. */
  lemma DigitsPlain(n: string)
    requires n != [] && forall i :: 0 <= i < |n| ==> '0' <= n[i] <= '9'
    ensures Plain(n)
  {
    assert NoMarks(n);
  }

  /** A number followed by a unit in CJK ideographs: bare, and the spacing
      pass puts one space between them. */
  lemma NumberUnit(n: string, u: string)
    requires n != [] && forall i :: 0 <= i < |n| ==> '0' <= n[i] <= '9'
    requires u != [] && forall i :: 0 <= i < |u| ==> 0x4E00 <= u[i] as int <= 0x9FFF
    ensures Bare(n + u) && Spaced(n + u) == n + " " + u
  {
    DigitsPlain(n);
    HanPlain(u);
    NoMarksJoin(n, u);
    SpacedUnchanged(n);
    SpacedUnchanged(u);
    SpacedConcat(n, u);
    assert NeedsSpace(n[|n| - 1], u[0]);
  }

  /** The line of the example, cut at its marks. */
  lemma LabelsExampleLine()
    ensures "价格" + "：" + "100元" + "；" + "数量" + "：" + "5个" + "。" + "下一句" == "价格：100元；数量：5个。下一句"
    ensures "价格" + ": " + "100 元" + "; " + "数量" + ": " + "5 个" + ". " + "下一句" == "价格: 100 元; 数量: 5 个. 下一句"
  {
  }

  /** The pieces of the example: bare, and how the spacing pass treats
      each. */
  lemma LabelsExamplePieces()
    ensures Bare("价格") && Bare("100元") && Bare("数量") && Bare("5个") && Bare("下一句")
    ensures Spaced("价格") == "价格" && Spaced("100元") == "100 元" && Spaced("数量") == "数量"
    ensures Spaced("5个") == "5 个" && Spaced("下一句") == "下一句"
  {
    HanWord("价格");
    HanWord("数量");
    HanWord("下一句");
    LabelsExampleNumbers();
  }

  /** The numbers with their units in the example. */
  lemma LabelsExampleNumbers()
    ensures Bare("100元") && Spaced("100元") == "100 元"
    ensures Bare("5个") && Spaced("5个") == "5 个"
  {
    assert "100元" == "100" + "元" && "5个" == "5" + "个";
    NumberUnit("100", "元");
    NumberUnit("5", "个");
  }

  /** A phrase of CJK ideographs is bare and the spacing pass keeps it. */
  lemma HanWord(s: string)
    requires s != [] && forall i :: 0 <= i < |s| ==> 0x4E00 <= s[i] as int <= 0x9FFF
    ensures Bare(s) && Spaced(s) == s
  {
    HanPlain(s);
    SpacedUnchanged(s);
  }

  /** `价格：100元；数量：5个。下一句` becomes
      `价格: 100 元; 数量: 5 个. 下一句`. */
  lemma LabelsExample()
    ensures HandleEverything("价格：100元；数量：5个。下一句") == "价格: 100 元; 数量: 5 个. 下一句"
  {
    LabelsExampleLine();
    LabelsExamplePieces();
    Labels("价格", "100元", "数量", "5个", "下一句");
  }
}
