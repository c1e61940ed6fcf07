/**
 What the punctuation handlers of chinese_to_english_punctuation.py do to a
 line, stated over all lines: how a line splits at a mark, what becomes of a
 mark at either end, of runs of marks and of whitespace around them.
 */
module HandlerLaws {

  import opened Text
  import opened Punctuation

  // ---------------------------------------------------------------------------
  // Tokens
  // ---------------------------------------------------------------------------

  /** Keeping the non-empty results distributes over concatenation. */
  lemma {:induction false} KeepNonEmptyAppend(f: string -> string, xs: seq<string>, ys: seq<string>)
    ensures KeepNonEmpty(f, xs + ys) == KeepNonEmpty(f, xs) + KeepNonEmpty(f, ys)
    decreases |xs|
  {
    if |xs| == 0 {
      assert xs + ys == ys;
    } else {
      assert (xs + ys)[1..] == xs[1..] + ys;
      KeepNonEmptyAppend(f, xs[1..], ys);
    }
  }

  /** Keeping the non-blank stripped pieces distributes over concatenation. */
  lemma KeepWordsAppend(xs: seq<string>, ys: seq<string>)
    ensures KeepWords(xs + ys) == KeepWords(xs) + KeepWords(ys)
  {
    KeepNonEmptyAppend(Strip, xs, ys);
  }

  /** A line without the mark is one token, its stripped self, unless blank. */
  lemma TokensNoMark(a: string, mark: char)
    requires mark !in a
    ensures Tokens(a, mark) == if Blank(a) then [] else [Strip(a)]
  {
    SplitNoSep(a, mark);
    KeepWordsSingle(a);
  }

  /** The tokens around a mark are the tokens of either side. */
  lemma TokensConcat(a: string, b: string, mark: char)
    ensures Tokens(a + [mark] + b, mark) == Tokens(a, mark) + Tokens(b, mark)
  {
    SplitConcat(a, b, mark);
    KeepWordsAppend(Split(a, mark), Split(b, mark));
  }

  lemma InitLast<T>(p: seq<T>)
    requires |p| > 0
    ensures p[..|p| - 1] + [p[|p| - 1]] == p
  {
  }

  lemma EmptyConcat<T>(x: seq<T>)
    ensures [] + x == x && x + [] == x
  {
  }

  /** A single piece yields its stripped self, unless that is empty. */
  lemma KeepWordsSingle(x: string)
    ensures KeepWords([x]) == if Strip(x) == [] then [] else [Strip(x)]
  {
    KeepNonEmptySingle(Strip, x);
  }

  lemma KeepNonEmptySingle(f: string -> string, x: string)
    ensures KeepNonEmpty(f, [x]) == if f(x) == [] then [] else [f(x)]
  {
    assert [x][0] == x && [x][1..] == [];
    assert KeepNonEmpty(f, [x]) == (if f(x) == [] then [] else [f(x)]) + KeepNonEmpty(f, []);
  }

  /** Pieces with the same stripped text yield the same words. */
  lemma KeepWordsSameStrip(x: string, y: string)
    requires Strip(x) == Strip(y)
    ensures KeepWords([x]) == KeepWords([y])
  {
    KeepWordsSingle(x);
    KeepWordsSingle(y);
  }

  /** Whitespace appended to a line does not change its tokens. */
  lemma TokensPadRight(a: string, w: string, mark: char)
    requires Blank(w) && !IsSpace(mark)
    ensures Tokens(a + w, mark) == Tokens(a, mark)
  {
    assert mark !in w;
    SplitPadRight(a, w, mark);
    var p := Split(a, mark);
    var init := p[..|p| - 1];
    var last := p[|p| - 1];
    assert Split(a + w, mark) == init + [last + w];
    KeepWordsAppend(init, [last + w]);
    KeepWordsAppend(init, [last]);
    InitLast(p);
    StripPadRight(last, w);
    KeepWordsSameStrip(last + w, last);
    var kept := KeepWords(init) + KeepWords([last]);
    assert Tokens(a + w, mark) == KeepWords(init + [last + w]) == kept;
    assert Tokens(a, mark) == KeepWords(init + [last]) == kept;
  }

  /** Whitespace prepended to a line does not change its tokens. */
  lemma TokensPadLeft(w: string, b: string, mark: char)
    requires Blank(w) && !IsSpace(mark)
    ensures Tokens(w + b, mark) == Tokens(b, mark)
  {
    assert mark !in w;
    SplitPadLeft(w, b, mark);
    var p := Split(b, mark);
    var first := p[0];
    var rest := p[1..];
    assert Split(w + b, mark) == [w + first] + rest;
    KeepWordsAppend([w + first], rest);
    KeepWordsAppend([first], rest);
    assert [first] + rest == p;
    StripPadLeft(w, first);
    KeepWordsSameStrip(w + first, first);
    var kept := KeepWords([first]) + KeepWords(rest);
    assert Tokens(w + b, mark) == KeepWords([w + first] + rest) == kept;
    assert Tokens(b, mark) == KeepWords([first] + rest) == kept;
  }

  /** A line has a token exactly when it has a character that is neither
      whitespace nor the mark. */
  lemma HasTextTokens(s: string, mark: char)
    ensures HasText(s, mark) <==> Tokens(s, mark) != []
  {
    var pieces := Split(s, mark);
    var ts := Tokens(s, mark);
    if ts != [] {
      TokensChars(s, mark);
      var c := ts[0][0];
      assert c in ts[0];
      assert c in s;
      var i :| 0 <= i < |s| && s[i] == c;
      assert !IsSpace(s[i]) && s[i] != mark;
    }
    if HasText(s, mark) {
      var i :| 0 <= i < |s| && !IsSpace(s[i]) && s[i] != mark;
      JoinSplit(s, mark);
      assert s[i] in Join(pieces, [mark]);
      JoinChars(pieces, [mark], s[i]);
      var j :| 0 <= j < |pieces| && s[i] in pieces[j];
      KeptPiece(pieces, j, s[i]);
    }
  }

  /** A piece holding a non-whitespace character yields a token. */
  lemma {:induction false} KeptPiece(pieces: seq<string>, j: int, c: char)
    requires 0 <= j < |pieces| && c in pieces[j] && !IsSpace(c)
    ensures KeepWords(pieces) != []
    decreases |pieces|
  {
    if j > 0 {
      KeptPiece(pieces[1..], j - 1, c);
    } else {
      var k :| 0 <= k < |pieces[0]| && pieces[0][k] == c;
    }
  }

  /** Whether a line ends in the mark after the mark is only decided by the
      text after it. */
  lemma EndsWithMarkConcat(x: string, b: string, mark: char)
    requires !IsSpace(mark)
    ensures EndsWithMark(x + [mark] + b, mark) == (Blank(b) || EndsWithMark(b, mark))
  {
    RStripConcat(x + [mark], b);
    var t := x + [mark];
    assert t[..|t| - 1] == x;
  }

  /** Leading whitespace does not change whether a line ends in the mark. */
  lemma EndsWithMarkPadLeft(w: string, b: string, mark: char)
    requires Blank(w)
    ensures EndsWithMark(w + b, mark) == EndsWithMark(b, mark)
  {
    RStripConcat(w, b);
    if Blank(b) {
      RStripConcat([], w);
      assert [] + w == w;
      assert RStrip(b) == [] by {
        RStripConcat([], b);
        assert [] + b == b;
      }
    }
  }

  // ---------------------------------------------------------------------------
  // Separator handlers: ，、。：；？！
  // ---------------------------------------------------------------------------

  /** The side conditions of every separator handler: neither mark is
      whitespace and they differ. */
  predicate SeparatorMarks(mark: char, ascii: char) {
    !IsSpace(mark) && !IsSpace(ascii) && ascii != mark
  }

  /** A line without the mark comes back stripped; a blank line comes back
      empty. */
  lemma SeparateNoMark(line: string, mark: char, ascii: char)
    requires SeparatorMarks(mark, ascii)
    requires mark !in line
    ensures Separate(line, mark, ascii) == Strip(line)
    ensures Blank(line) ==> Separate(line, mark, ascii) == []
  {
    TokensNoMark(line, mark);
    EndsWithMarkAt(line, mark);
    if !Blank(line) {
      StripStripped(Strip(line));
    }
  }

  /** A blank line, with or without marks in it, gives the empty string. */
  lemma SeparateBlank(line: string, mark: char, ascii: char)
    requires SeparatorMarks(mark, ascii)
    requires Blank(line)
    ensures Separate(line, mark, ascii) == []
  {
    assert mark !in line by {
      forall i | 0 <= i < |line| ensures line[i] != mark {
        assert IsSpace(line[i]);
      }
    }
    SeparateNoMark(line, mark, ascii);
  }

  /** The tokens `_process_last_special_char` passes on for a line with text
      after its first mark: the text before the mark, then those of the rest. */
  lemma MarkedTokensSplit(a: string, b: string, mark: char)
    requires !IsSpace(mark)
    requires mark !in a && !Blank(a) && !Blank(b)
    ensures ProcessLastSpecialChar(a + [mark] + b, Tokens(a + [mark] + b, mark), mark)
            == [Strip(a)] + ProcessLastSpecialChar(b, Tokens(b, mark), mark)
  {
    var line := a + [mark] + b;
    var tb := Tokens(b, mark);
    TokensConcat(a, b, mark);
    TokensNoMark(a, mark);
    assert Tokens(line, mark) == [Strip(a)] + tb;
    EndsWithMarkConcat(a, b, mark);
    ProcessConsToken(line, b, Strip(a), tb, mark);
  }

  /** A token in front passes through `_process_last_special_char` when the
      two lines agree on ending in the mark. */
  lemma ProcessConsToken(line: string, b: string, x: string, tb: seq<string>, mark: char)
    requires EndsWithMark(line, mark) == EndsWithMark(b, mark)
    ensures ProcessLastSpecialChar(line, [x] + tb, mark) == [x] + ProcessLastSpecialChar(b, tb, mark)
  {
    if EndsWithMark(b, mark) {
      assert ([x] + tb) + [[]] == [x] + (tb + [[]]);
    }
  }

  /** A line with text has a first token that starts with a non-whitespace
      character. */
  lemma MarkedTokensHead(b: string, mark: char)
    requires !IsSpace(mark) && HasText(b, mark)
    ensures var tb := ProcessLastSpecialChar(b, Tokens(b, mark), mark);
            tb != [] && tb[0] != [] && !IsSpace(tb[0][0])
  {
    HasTextTokens(b, mark);
    var t := Tokens(b, mark);
    assert t[0] != [] && Stripped(t[0]);
  }

  /** At the first mark of a line, the text before it, stripped, is followed
      by the ASCII mark and one space, then by the handled rest. */
  lemma SeparateSplit(a: string, b: string, mark: char, ascii: char)
    requires SeparatorMarks(mark, ascii)
    requires mark !in a && !Blank(a)
    requires HasText(b, mark)
    ensures Separate(a + [mark] + b, mark, ascii) == Strip(a) + [ascii, ' '] + Separate(b, mark, ascii)
  {
    var line := a + [mark] + b;
    var g := Glue(ascii);
    var tb := ProcessLastSpecialChar(b, Tokens(b, mark), mark);
    var tl := ProcessLastSpecialChar(line, Tokens(line, mark), mark);
    assert !Blank(b) by {
      var i :| 0 <= i < |b| && !IsSpace(b[i]) && b[i] != mark;
    }
    MarkedTokensSplit(a, b, mark);
    MarkedTokensHead(b, mark);
    JoinCons(Strip(a), tb, g);
    JoinHead(tb, g);
    StripFront(Strip(a) + g, Join(tb, g));
  }

  /** A leading mark yields no token of its own. */
  lemma TokensLeadingMark(b: string, mark: char)
    ensures Tokens([mark] + b, mark) == Tokens(b, mark)
  {
    var none: string := [];
    assert none + [mark] + b == [mark] + b;
    TokensConcat(none, b, mark);
    TokensNoMark(none, mark);
    EmptyConcat(Tokens(b, mark));
  }

  /** A trailing mark yields no token of its own. */
  lemma TokensTrailingMark(a: string, mark: char)
    ensures Tokens(a + [mark], mark) == Tokens(a, mark)
  {
    var none: string := [];
    assert a + [mark] + none == a + [mark];
    TokensConcat(a, none, mark);
    TokensNoMark(none, mark);
    EmptyConcat(Tokens(a, mark));
  }

  /** A blank line has no tokens. */
  lemma TokensBlank(b: string, mark: char)
    requires Blank(b) && !IsSpace(mark)
    ensures Tokens(b, mark) == []
  {
    assert mark !in b by {
      forall i | 0 <= i < |b| ensures b[i] != mark {
        assert IsSpace(b[i]);
      }
    }
    TokensNoMark(b, mark);
  }

  /** The tokens passed on for a line that starts with the mark. */
  lemma MarkedTokensLeading(b: string, mark: char)
    requires !IsSpace(mark)
    ensures ProcessLastSpecialChar([mark] + b, Tokens([mark] + b, mark), mark)
            == if Blank(b) then [[]] else ProcessLastSpecialChar(b, Tokens(b, mark), mark)
  {
    var line := [mark] + b;
    var tb := Tokens(b, mark);
    TokensLeadingMark(b, mark);
    EndsWithLeadingMark(b, mark);
    if Blank(b) {
      TokensBlank(b, mark);
      assert ProcessLastSpecialChar(line, tb, mark) == [] + [[]];
    } else {
      assert ProcessLastSpecialChar(line, tb, mark) == ProcessLastSpecialChar(b, tb, mark);
    }
  }

  /** A line that starts with the mark ends in it when the rest is blank or
      ends in it. */
  lemma EndsWithLeadingMark(b: string, mark: char)
    requires !IsSpace(mark)
    ensures EndsWithMark([mark] + b, mark) == (Blank(b) || EndsWithMark(b, mark))
  {
    assert [] + [mark] + b == [mark] + b;
    EndsWithMarkConcat([], b, mark);
  }

  /** A mark at the very start of a line disappears. */
  lemma SeparateLeadingMark(b: string, mark: char, ascii: char)
    requires SeparatorMarks(mark, ascii)
    ensures Separate([mark] + b, mark, ascii) == Separate(b, mark, ascii)
  {
    MarkedTokensLeading(b, mark);
    if Blank(b) {
      SeparateBlank(b, mark, ascii);
      assert Join([[]], Glue(ascii)) == [];
    }
  }

  /** A mark at the end of a line becomes a bare ASCII mark. */
  lemma SeparateTrailingMark(a: string, mark: char, ascii: char)
    requires SeparatorMarks(mark, ascii)
    requires mark !in a && !Blank(a)
    ensures Separate(a + [mark], mark, ascii) == Strip(a) + [ascii]
  {
    var line := a + [mark];
    assert line == a + [mark] + [];
    TokensConcat(a, [], mark);
    TokensNoMark(a, mark);
    TokensNoMark([], mark);
    EndsWithMarkConcat(a, [], mark);
    var t := Tokens(line, mark);
    assert t == [Strip(a)];
    assert EndsWithMark(line, mark);
    assert ProcessLastSpecialChar(line, t, mark) == [Strip(a)] + [[]];
    JoinCons(Strip(a), [[]], Glue(ascii));
    assert Join([Strip(a)] + [[]], Glue(ascii)) == Strip(a) + [ascii, ' '];
    StripTrailingSpace(Strip(a), ascii);
  }

  /** Whitespace between two marks yields no token. */
  lemma TokensCollapse(a: string, w: string, b: string, mark: char)
    requires Blank(w) && !IsSpace(mark)
    ensures Tokens(a + [mark] + w + [mark] + b, mark) == Tokens(a + [mark] + b, mark)
  {
    var rest := w + [mark] + b;
    assert a + [mark] + w + [mark] + b == a + [mark] + rest;
    TokensConcat(a, rest, mark);
    TokensConcat(w, b, mark);
    TokensBlank(w, mark);
    EmptyConcat(Tokens(b, mark));
    assert Tokens(rest, mark) == Tokens(b, mark);
    TokensConcat(a, b, mark);
  }

  /** Two lines that every handler for `mark` treats alike: the same tokens,
      and a mark as last non-whitespace character in both or in neither. */
  predicate SameTokens(x: string, y: string, mark: char) {
    Tokens(x, mark) == Tokens(y, mark) && EndsWithMark(x, mark) == EndsWithMark(y, mark)
  }

  /** The handlers look at a line only through its tokens and its last mark. */
  lemma HandlersAgree(x: string, y: string, mark: char, ascii: char, closers: string)
    requires !IsSpace(mark) && ascii != mark
    requires SameTokens(x, y, mark)
    ensures Separate(x, mark, ascii) == Separate(y, mark, ascii)
    ensures Open(x, mark, ascii) == Open(y, mark, ascii)
    ensures Close(x, mark, ascii, closers) == Close(y, mark, ascii, closers)
  {
  }

  /** A run of marks separated by whitespace counts as one mark. */
  lemma CollapseSameTokens(a: string, w: string, b: string, mark: char)
    requires Blank(w) && !IsSpace(mark)
    ensures SameTokens(a + [mark] + w + [mark] + b, a + [mark] + b, mark)
  {
    TokensCollapse(a, w, b, mark);
    assert a + [mark] + w + [mark] + b == (a + [mark] + w) + [mark] + b;
    EndsWithMarkConcat(a + [mark] + w, b, mark);
    EndsWithMarkConcat(a, b, mark);
  }

  /** Whitespace on either side of a mark is discarded. */
  lemma AbsorbSameTokens(a: string, w1: string, w2: string, b: string, mark: char)
    requires Blank(w1) && Blank(w2) && !IsSpace(mark)
    ensures SameTokens(a + w1 + [mark] + w2 + b, a + [mark] + b, mark)
  {
    var line := a + w1 + [mark] + w2 + b;
    assert line == (a + w1) + [mark] + (w2 + b);
    TokensConcat(a + w1, w2 + b, mark);
    TokensPadRight(a, w1, mark);
    TokensPadLeft(w2, b, mark);
    TokensConcat(a, b, mark);
    EndsWithMarkConcat(a + w1, w2 + b, mark);
    EndsWithMarkConcat(a, b, mark);
    EndsWithMarkPadLeft(w2, b, mark);
    assert Blank(w2 + b) <==> Blank(b) by {
      if Blank(b) {
        forall i | 0 <= i < |w2 + b| ensures IsSpace((w2 + b)[i]) {
          if i >= |w2| { assert (w2 + b)[i] == b[i - |w2|]; }
        }
      }
      if Blank(w2 + b) {
        forall i | 0 <= i < |b| ensures IsSpace(b[i]) {
          assert (w2 + b)[|w2| + i] == b[i];
        }
      }
    }
  }

  /** Every handler treats a run of its marks separated by whitespace as one
      mark. */
  lemma HandlersCollapseMarks(a: string, w: string, b: string, mark: char, ascii: char, closers: string)
    requires !IsSpace(mark) && ascii != mark
    requires Blank(w)
    ensures var line := a + [mark] + w + [mark] + b;
            Separate(line, mark, ascii) == Separate(a + [mark] + b, mark, ascii) &&
            Open(line, mark, ascii) == Open(a + [mark] + b, mark, ascii) &&
            Close(line, mark, ascii, closers) == Close(a + [mark] + b, mark, ascii, closers)
  {
    CollapseSameTokens(a, w, b, mark);
    HandlersAgree(a + [mark] + w + [mark] + b, a + [mark] + b, mark, ascii, closers);
  }

  /** Every handler discards the whitespace on either side of its mark. */
  lemma HandlersAbsorbSpace(a: string, w1: string, w2: string, b: string, mark: char, ascii: char, closers: string)
    requires !IsSpace(mark) && ascii != mark
    requires Blank(w1) && Blank(w2)
    ensures var line := a + w1 + [mark] + w2 + b;
            Separate(line, mark, ascii) == Separate(a + [mark] + b, mark, ascii) &&
            Open(line, mark, ascii) == Open(a + [mark] + b, mark, ascii) &&
            Close(line, mark, ascii, closers) == Close(a + [mark] + b, mark, ascii, closers)
  {
    AbsorbSameTokens(a, w1, w2, b, mark);
    HandlersAgree(a + w1 + [mark] + w2 + b, a + [mark] + b, mark, ascii, closers);
  }

  /** Handling a line twice is handling it once. */
  lemma SeparateIdempotent(line: string, mark: char, ascii: char)
    requires SeparatorMarks(mark, ascii)
    ensures Separate(Separate(line, mark, ascii), mark, ascii) == Separate(line, mark, ascii)
  {
    var r := Separate(line, mark, ascii);
    SeparateNoMark(r, mark, ascii);
    StripStripped(r);
  }

  // ---------------------------------------------------------------------------
  // Opener handlers: （ “
  // ---------------------------------------------------------------------------

  /** A line without the mark comes back stripped. */
  lemma OpenNoMark(line: string, mark: char, ascii: char)
    requires !IsSpace(mark) && ascii != mark
    requires mark !in line
    ensures Open(line, mark, ascii) == Strip(line)
  {
    TokensNoMark(line, mark);
    if !Blank(line) {
      StripStripped(Strip(line));
    }
  }

  /** At the first mark of a line, the text before it, stripped, is followed
      by a space and the ASCII mark, then by the handled rest. */
  lemma OpenSplit(a: string, b: string, mark: char, ascii: char)
    requires !IsSpace(mark) && !IsSpace(ascii) && ascii != mark
    requires mark !in a && !Blank(a)
    requires HasText(b, mark)
    ensures Open(a + [mark] + b, mark, ascii) == Strip(a) + [' ', ascii] + Open(b, mark, ascii)
  {
    var g: string := [' ', ascii];
    var tb := Tokens(b, mark);
    TokensConcat(a, b, mark);
    TokensNoMark(a, mark);
    HasTextTokens(b, mark);
    assert tb[0] != [] && Stripped(tb[0]);
    JoinCons(Strip(a), tb, g);
    JoinHead(tb, g);
    StripFront(Strip(a) + g, Join(tb, g));
  }

  /** A mark at either end of a line disappears. */
  lemma OpenEndMarks(a: string, b: string, mark: char, ascii: char)
    requires !IsSpace(mark) && ascii != mark
    ensures Open([mark] + b, mark, ascii) == Open(b, mark, ascii)
    ensures Open(a + [mark], mark, ascii) == Open(a, mark, ascii)
  {
    TokensLeadingMark(b, mark);
    TokensTrailingMark(a, mark);
  }

  /** Handling a line twice is handling it once. */
  lemma OpenIdempotent(line: string, mark: char, ascii: char)
    requires !IsSpace(mark) && ascii != mark
    ensures Open(Open(line, mark, ascii), mark, ascii) == Open(line, mark, ascii)
  {
    var r := Open(line, mark, ascii);
    OpenNoMark(r, mark, ascii);
    StripStripped(r);
  }

  // ---------------------------------------------------------------------------
  // Closer handlers: ） ”
  // ---------------------------------------------------------------------------

  /** The closer join starts with the first token. */
  lemma CloseJoinHead(tokens: seq<string>, ascii: char, closers: string)
    requires |tokens| > 0 && tokens[0] != []
    ensures CloseJoin(tokens, ascii, closers) != []
    ensures CloseJoin(tokens, ascii, closers)[0] == tokens[0][0]
  {
    if |tokens| == 1 {
      assert Join(tokens, []) == tokens[0];
    }
  }

  /** A line without the mark comes back stripped. */
  lemma CloseNoMark(line: string, mark: char, ascii: char, closers: string)
    requires !IsSpace(mark) && ascii != mark
    requires mark !in line
    ensures Close(line, mark, ascii, closers) == Strip(line)
  {
    var t := Tokens(line, mark);
    TokensNoMark(line, mark);
    NoMarkNoEnd(line, mark);
    var j := CloseJoin(t, ascii, closers);
    assert Close(line, mark, ascii, closers) == Strip(j + []);
    assert j + [] == j;
    if Blank(line) {
      assert j == [];
    } else {
      assert t == [Strip(line)];
      assert j == Join([Strip(line)], []) == Strip(line);
      StripStripped(Strip(line));
    }
  }

  /** A line without the mark does not end in it. */
  lemma NoMarkNoEnd(line: string, mark: char)
    requires mark !in line
    ensures !EndsWithMark(line, mark)
  {
    var t := RStrip(line);
    if |t| > 0 {
      assert t[|t| - 1] == line[|t| - 1];
    }
  }

  /** A mark at the end of a line becomes a bare ASCII mark right after the
      stripped text. */
  lemma CloseTrailingMark(a: string, mark: char, ascii: char, closers: string)
    requires !IsSpace(mark) && !IsSpace(ascii) && ascii != mark
    requires mark !in a && !Blank(a)
    ensures Close(a + [mark], mark, ascii, closers) == Strip(a) + [ascii]
  {
    var line := a + [mark];
    assert line == a + [mark] + [];
    TokensConcat(a, [], mark);
    TokensNoMark(a, mark);
    TokensNoMark([], mark);
    EndsWithMarkConcat(a, [], mark);
    var t := Tokens(line, mark);
    assert t == [Strip(a)];
    assert CloseJoin(t, ascii, closers) == Strip(a) by {
      assert Join(t, []) == Strip(a);
    }
    var x := Strip(a) + [ascii];
    assert x[0] == Strip(a)[0];
    assert x[|x| - 1] == ascii;
    StripStripped(x);
  }

  /** A line that is only the mark and whitespace becomes the bare ASCII
      mark. */
  lemma CloseLoneMark(w1: string, w2: string, mark: char, ascii: char, closers: string)
    requires !IsSpace(mark) && !IsSpace(ascii) && ascii != mark
    requires Blank(w1) && Blank(w2)
    ensures Close(w1 + [mark] + w2, mark, ascii, closers) == [ascii]
  {
    var line := w1 + [mark] + w2;
    TokensConcat(w1, w2, mark);
    TokensBlank(w1, mark);
    TokensBlank(w2, mark);
    EndsWithMarkConcat(w1, w2, mark);
    assert CloseJoin([], ascii, closers) == [];
    StripStripped([ascii]);
  }

  /** At the first mark of a line, the text before it, stripped, is followed
      by the ASCII mark, then by a space unless the handled rest starts with
      one of the closers, then by the handled rest. */
  lemma CloseSplit(a: string, b: string, mark: char, ascii: char, closers: string)
    requires !IsSpace(mark) && !IsSpace(ascii) && ascii != mark
    requires mark !in a && !Blank(a)
    requires HasText(b, mark)
    ensures var rest := Close(b, mark, ascii, closers);
            rest != [] &&
            Close(a + [mark] + b, mark, ascii, closers) ==
              Strip(a) + (if rest[0] in closers then [ascii] else [ascii, ' ']) + rest
  {
    var line := a + [mark] + b;
    var x := Strip(a);
    var tb := Tokens(b, mark);
    var tail: string := if EndsWithMark(b, mark) then [ascii] else [];
    assert !Blank(b) by {
      var i :| 0 <= i < |b| && !IsSpace(b[i]) && b[i] != mark;
    }
    assert tb != [] && tb[0] != [] && !IsSpace(tb[0][0]) by {
      HasTextTokens(b, mark);
      assert Stripped(tb[0]);
    }
    var j := CloseJoin(tb, ascii, closers) + tail;
    assert j != [] && j[0] == tb[0][0] by {
      CloseJoinHead(tb, ascii, closers);
    }
    var g := CloserGlue(tb[0], ascii, closers);
    assert Close(line, mark, ascii, closers) == Strip(CloseJoin([x] + tb, ascii, closers) + tail) by {
      CloseSplitTokens(a, b, mark);
    }
    CloseJoinCons(x, tb, tail, ascii, closers);
    assert Close(b, mark, ascii, closers) == Strip(j);
    StripFront(x + g, j);
    StripHead(j);
  }

  /** The tokens of a closer line split at its first mark. */
  lemma CloseSplitTokens(a: string, b: string, mark: char)
    requires !IsSpace(mark)
    requires mark !in a && !Blank(a) && !Blank(b)
    ensures Tokens(a + [mark] + b, mark) == [Strip(a)] + Tokens(b, mark)
    ensures EndsWithMark(a + [mark] + b, mark) == EndsWithMark(b, mark)
  {
    var line := a + [mark] + b;
    var tb := Tokens(b, mark);
    TokensConcat(a, b, mark);
    TokensNoMark(a, mark);
    assert Tokens(line, mark) == [Strip(a)] + tb;
    EndsWithMarkConcat(a, b, mark);
  }

  /** Putting a token in front of a non-empty list adds it and its glue. */
  lemma CloseJoinCons(x: string, ts: seq<string>, tail: string, ascii: char, closers: string)
    requires |ts| > 0
    ensures CloseJoin([x] + ts, ascii, closers) + tail ==
            (x + CloserGlue(ts[0], ascii, closers)) + (CloseJoin(ts, ascii, closers) + tail)
  {
    assert ([x] + ts)[1..] == ts;
    var g := CloserGlue(ts[0], ascii, closers);
    var c := CloseJoin(ts, ascii, closers);
    assert CloseJoin([x] + ts, ascii, closers) == x + g + c;
    Assoc4(x, g, c, tail);
  }

  lemma Assoc4<T>(p: seq<T>, q: seq<T>, r: seq<T>, s: seq<T>)
    ensures p + q + r + s == (p + q) + (r + s)
  {
  }

  /** A mark at the start of a line disappears, unless nothing but whitespace
      follows it. */
  lemma CloseLeadingMark(b: string, mark: char, ascii: char, closers: string)
    requires !IsSpace(mark) && !IsSpace(ascii) && ascii != mark
    ensures Close([mark] + b, mark, ascii, closers) == if Blank(b) then [ascii] else Close(b, mark, ascii, closers)
  {
    if Blank(b) {
      assert [mark] + b == [] + [mark] + b;
      CloseLoneMark([], b, mark, ascii, closers);
    } else {
      TokensLeadingMark(b, mark);
      assert [] + [mark] + b == [mark] + b;
      EndsWithMarkConcat([], b, mark);
    }
  }

  /** Handling a line twice is handling it once. */
  lemma CloseIdempotent(line: string, mark: char, ascii: char, closers: string)
    requires !IsSpace(mark) && ascii != mark
    ensures Close(Close(line, mark, ascii, closers), mark, ascii, closers) == Close(line, mark, ascii, closers)
  {
    var r := Close(line, mark, ascii, closers);
    CloseNoMark(r, mark, ascii, closers);
    StripStripped(r);
  }
}
