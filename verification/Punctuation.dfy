/**
 The eleven punctuation handlers of chinese_to_english_punctuation.py. Each
 splits a line on one full-width mark, strips every piece, drops the empty
 ones and joins the rest again around the ASCII mark. They come in three
 shapes:
 - separators (，、。：；？！) join with the ASCII mark plus a space and keep
   a bare ASCII mark when the line ends in the full-width one;
 - openers (（ and “) join with a space plus the ASCII mark and drop a mark
   at either end of the line;
 - closers (） and ”) put the ASCII mark after each piece but the last,
   followed by a space unless the next piece starts with closing
   punctuation, and keep a bare ASCII mark at the end of the line.
 */
module Punctuation {

  import opened Text

  /** Some character is neither whitespace nor the mark: the line has a
      non-empty token. */
  ghost predicate HasText(s: string, mark: char) {
    exists i :: 0 <= i < |s| && !IsSpace(s[i]) && s[i] != mark
  }

  /** Each piece mapped through `f`, the empty results dropped. Stated for any
      `f` so that its laws are proved without unfolding `Strip`. */
  function KeepNonEmpty(f: string -> string, pieces: seq<string>): seq<string> {
    if |pieces| == 0 then []
    else (if f(pieces[0]) == [] then [] else [f(pieces[0])]) + KeepNonEmpty(f, pieces[1..])
  }

  /** `[p.strip() for p in pieces if p.strip()]` */
  function KeepWords(pieces: seq<string>): seq<string> {
    KeepNonEmpty(Strip, pieces)
  }

  /** Every kept result is non-empty and satisfies what `f` promises of all
      its results; there are no more results than pieces. */
  lemma {:induction false} KeepNonEmptyResults(f: string -> string, pieces: seq<string>)
    requires forall s :: Stripped(f(s))
    ensures |KeepNonEmpty(f, pieces)| <= |pieces|
    ensures forall i :: 0 <= i < |KeepNonEmpty(f, pieces)| ==>
              KeepNonEmpty(f, pieces)[i] != [] && Stripped(KeepNonEmpty(f, pieces)[i])
    decreases |pieces|
  {
    if |pieces| > 0 {
      var t := f(pieces[0]);
      var rest := KeepNonEmpty(f, pieces[1..]);
      var r := KeepNonEmpty(f, pieces);
      KeepNonEmptyResults(f, pieces[1..]);
      assert r == (if t == [] then [] else [t]) + rest;
      forall i | 0 <= i < |r| ensures r[i] != [] && Stripped(r[i]) {
        if t == [] {
          assert r[i] == rest[i];
        } else if i > 0 {
          assert r[i] == rest[i - 1];
        }
      }
    }
  }

  /** Each kept word is non-empty and stripped, and there are no more words
      than pieces. */
  lemma KeepWordsWords(pieces: seq<string>)
    ensures |KeepWords(pieces)| <= |pieces|
    ensures forall i :: 0 <= i < |KeepWords(pieces)| ==>
              KeepWords(pieces)[i] != [] && Stripped(KeepWords(pieces)[i])
  {
    KeepNonEmptyResults(Strip, pieces);
  }

  /** A character of a kept result is a character of some piece, when `f`
      only ever removes characters. */
  lemma {:induction false} KeepNonEmptyChars(f: string -> string, pieces: seq<string>, i: int, c: char)
    requires forall s, d :: d in f(s) ==> d in s
    requires 0 <= i < |KeepNonEmpty(f, pieces)| && c in KeepNonEmpty(f, pieces)[i]
    ensures exists j :: 0 <= j < |pieces| && c in pieces[j]
    decreases |pieces|
  {
    var t := f(pieces[0]);
    var rest := KeepNonEmpty(f, pieces[1..]);
    assert KeepNonEmpty(f, pieces) == (if t == [] then [] else [t]) + rest;
    if t != [] && i == 0 {
      assert c in pieces[0];
    } else {
      var k := if t == [] then i else i - 1;
      assert KeepNonEmpty(f, pieces)[i] == rest[k];
      KeepNonEmptyChars(f, pieces[1..], k, c);
      var j :| 0 <= j < |pieces[1..]| && c in pieces[1..][j];
      assert pieces[1..][j] == pieces[j + 1];
    }
  }

  /** Every character of a kept word comes from one of the pieces. */
  lemma KeepWordsChars(pieces: seq<string>, i: int, c: char)
    requires 0 <= i < |KeepWords(pieces)| && c in KeepWords(pieces)[i]
    ensures exists j :: 0 <= j < |pieces| && c in pieces[j]
  {
    forall s, d | d in Strip(s) ensures d in s {
      StripChars(s);
    }
    KeepNonEmptyChars(Strip, pieces, i, c);
  }

  /** The tokens of a line: `[t.strip() for t in line.split(mark) if t.strip()]`. */
  function Tokens(line: string, mark: char): (r: seq<string>)
    ensures forall i :: 0 <= i < |r| ==> r[i] != [] && Stripped(r[i])
  {
    KeepWordsWords(Split(line, mark));
    KeepWords(Split(line, mark))
  }

  /** Every character of a token comes from the line and is not the mark. */
  lemma TokensChars(line: string, mark: char)
    ensures forall i, c :: 0 <= i < |Tokens(line, mark)| && c in Tokens(line, mark)[i] ==>
              c in line && c != mark
  {
    var pieces := Split(line, mark);
    var r := Tokens(line, mark);
    forall i, c | 0 <= i < |r| && c in r[i] ensures c in line && c != mark {
      KeepWordsChars(pieces, i, c);
      var j :| 0 <= j < |pieces| && c in pieces[j];
      if c != mark {
        PieceCharInJoin(pieces, [mark], j, c);
        JoinSplit(line, mark);
      }
    }
  }

  /** A character of one piece is a character of the join. */
  lemma {:induction false} PieceCharInJoin(xs: seq<string>, glue: string, j: int, c: char)
    requires 0 <= j < |xs| && c in xs[j]
    ensures c in Join(xs, glue)
    decreases |xs|
  {
    if j > 0 {
      PieceCharInJoin(xs[1..], glue, j - 1, c);
    }
  }

  /** Python's `line.rstrip()[-1] == mark`, false where the IndexError is caught. */
  predicate EndsWithMark(line: string, mark: char) {
    var t := RStrip(line);
    |t| > 0 && t[|t| - 1] == mark
  }

  /**
   `_process_last_special_char`: the token list gains one empty token exactly
   when the last non-whitespace character of the line is the mark; a blank
   line gains nothing.
   */
  function ProcessLastSpecialChar(line: string, tokens: seq<string>, mark: char): (r: seq<string>)
    ensures r == tokens || r == tokens + [[]]
    ensures Blank(line) ==> r == tokens
  {
    EndsWithMarkAt(line, mark);
    if EndsWithMark(line, mark) then tokens + [[]] else tokens
  }

  /** An empty token is appended exactly when the last non-whitespace
      character of the line is the mark. */
  lemma ProcessLastSpecialCharSpec(line: string, tokens: seq<string>, mark: char)
    requires !IsSpace(mark)
    ensures ProcessLastSpecialChar(line, tokens, mark) == tokens + [[]] <==>
              exists i :: 0 <= i < |line| && line[i] == mark && Blank(line[i + 1..])
  {
    EndsWithMarkAt(line, mark);
    assert tokens + [[]] != tokens by {
      assert |tokens + [[]]| != |tokens|;
    }
  }

  /** `rstrip` cuts just after the last non-whitespace character. */
  lemma {:induction false} RStripAt(line: string, i: int)
    requires 0 <= i < |line| && !IsSpace(line[i]) && Blank(line[i + 1..])
    ensures RStrip(line) == line[..i + 1]
    decreases |line|
  {
    if i + 1 < |line| {
      assert IsSpace(line[i + 1..][|line| - 1 - (i + 1)]);
      var l := line[..|line| - 1];
      assert l[i + 1..] == line[i + 1..][..|line| - 1 - (i + 1)];
      RStripAt(l, i);
      assert l[..i + 1] == line[..i + 1];
    }
  }

  /** The right-stripped line ends with the mark exactly when the mark is its
      last non-whitespace character; a blank line never does. */
  lemma EndsWithMarkAt(line: string, mark: char)
    ensures Blank(line) ==> !EndsWithMark(line, mark)
    ensures !IsSpace(mark) ==>
              (EndsWithMark(line, mark) <==>
               exists i :: 0 <= i < |line| && line[i] == mark && Blank(line[i + 1..]))
  {
    var t := RStrip(line);
    if |t| > 0 {
      assert line[|t| - 1] == t[|t| - 1];
      assert line[|t|..] == line[|t| - 1 + 1..];
    }
    if !IsSpace(mark) {
      forall i | 0 <= i < |line| && line[i] == mark && Blank(line[i + 1..])
        ensures EndsWithMark(line, mark)
      {
        RStripAt(line, i);
      }
    }
  }

  /** The characters a handler may add. */
  function Glue(ascii: char): string {
    [ascii, ' ']
  }

  // ---------------------------------------------------------------------------
  // The three handler shapes
  // ---------------------------------------------------------------------------

  /** Separator handlers: `(ascii + " ").join(tokens).strip()` with the trailing
      empty token of `_process_last_special_char`. */
  function Separate(line: string, mark: char, ascii: char): (r: string)
    requires !IsSpace(mark) && ascii != mark
    ensures mark !in r
    ensures Stripped(r)
    ensures CharsFrom(r, line, Glue(ascii))
  {
    var words := Tokens(line, mark);
    TokensChars(line, mark);
    var tokens := ProcessLastSpecialChar(line, words, mark);
    EmptyTokenProvenance(words, tokens, line, mark);
    var j := Join(tokens, Glue(ascii));
    JoinProvenance(tokens, Glue(ascii), line, mark);
    StripProvenance(j, line, Glue(ascii), mark);
    Strip(j)
  }

  /** Opener handlers: `(" " + ascii).join(tokens).strip()`. */
  function Open(line: string, mark: char, ascii: char): (r: string)
    requires !IsSpace(mark) && ascii != mark
    ensures mark !in r
    ensures Stripped(r)
    ensures CharsFrom(r, line, Glue(ascii))
  {
    var tokens := Tokens(line, mark);
    TokensChars(line, mark);
    var j := Join(tokens, [' ', ascii]);
    JoinProvenance(tokens, [' ', ascii], line, mark);
    StripProvenance(j, line, Glue(ascii), mark);
    Strip(j)
  }

  /** The rebuilt token list of the closer handlers, joined by `""`: after every
      token but the last comes the ASCII mark, followed by a space unless the
      next token starts with one of `closers`. */
  function CloseJoin(tokens: seq<string>, ascii: char, closers: string): string {
    if |tokens| <= 1 then Join(tokens, [])
    else tokens[0] + CloserGlue(tokens[1], ascii, closers) + CloseJoin(tokens[1..], ascii, closers)
  }

  /** What the closer handlers put between a token and the `next` one. */
  function CloserGlue(next: string, ascii: char, closers: string): string {
    if |next| > 0 && next[0] in closers then [ascii] else [ascii, ' ']
  }

  /** Closer handlers: `"".join(new_tokens).strip()`. */
  function Close(line: string, mark: char, ascii: char, closers: string): (r: string)
    requires !IsSpace(mark) && ascii != mark
    ensures mark !in r
    ensures Stripped(r)
    ensures CharsFrom(r, line, Glue(ascii))
  {
    var tokens := Tokens(line, mark);
    TokensChars(line, mark);
    var j := CloseJoin(tokens, ascii, closers) + (if EndsWithMark(line, mark) then [ascii] else []);
    CloseJoinProvenance(tokens, ascii, closers, line, mark);
    StripProvenance(j, line, Glue(ascii), mark);
    Strip(j)
  }

  /** The characters of a join of tokens come from the line or the glue, and
      never include the mark. */
  lemma JoinProvenance(tokens: seq<string>, glue: string, line: string, mark: char)
    requires forall i :: 0 <= i < |tokens| ==> mark !in tokens[i]
    requires forall i, c :: 0 <= i < |tokens| && c in tokens[i] ==> c in line
    requires mark !in glue
    ensures mark !in Join(tokens, glue)
    ensures CharsFrom(Join(tokens, glue), line, glue)
  {
    forall c | c in Join(tokens, glue) ensures (c in line || c in glue) && c != mark {
      JoinChars(tokens, glue, c);
    }
  }

  /** An appended empty token brings no characters. */
  lemma EmptyTokenProvenance(words: seq<string>, tokens: seq<string>, line: string, mark: char)
    requires tokens == words || tokens == words + [[]]
    requires forall i :: 0 <= i < |words| ==> mark !in words[i]
    requires forall i, c :: 0 <= i < |words| && c in words[i] ==> c in line
    ensures forall i :: 0 <= i < |tokens| ==> mark !in tokens[i]
    ensures forall i, c :: 0 <= i < |tokens| && c in tokens[i] ==> c in line
  {
  }

  /** Stripping keeps the provenance of the characters. */
  lemma StripProvenance(j: string, line: string, extra: string, mark: char)
    requires mark !in j && CharsFrom(j, line, extra)
    ensures mark !in Strip(j) && CharsFrom(Strip(j), line, extra)
  {
    StripChars(j);
  }

  /** The same for the closer join. */
  lemma {:induction false} CloseJoinProvenance(tokens: seq<string>, ascii: char, closers: string, line: string, mark: char)
    requires !IsSpace(mark) && ascii != mark
    requires forall i :: 0 <= i < |tokens| ==> mark !in tokens[i]
    requires forall i, c :: 0 <= i < |tokens| && c in tokens[i] ==> c in line
    ensures mark !in CloseJoin(tokens, ascii, closers)
    ensures CharsFrom(CloseJoin(tokens, ascii, closers), line, Glue(ascii))
    decreases |tokens|
  {
    if |tokens| <= 1 {
      JoinProvenance(tokens, [], line, mark);
    } else {
      CloseJoinProvenance(tokens[1..], ascii, closers, line, mark);
      assert tokens[0] == tokens[..][0];
    }
  }

  // ---------------------------------------------------------------------------
  // The eleven handlers of the source
  // ---------------------------------------------------------------------------

  /** `handle_dou_hao`: ， becomes `, `. */
  function HandleDouHao(line: string): (r: string)
    ensures '，' !in r && Stripped(r) && CharsFrom(r, line, ", ")
  {
    Separate(line, '，', ',')
  }

  /** `handle_dun_hao`: 、 becomes `, `. */
  function HandleDunHao(line: string): (r: string)
    ensures '、' !in r && Stripped(r) && CharsFrom(r, line, ", ")
  {
    Separate(line, '、', ',')
  }

  /** `handle_ju_hao`: 。 becomes `. `. */
  function HandleJuHao(line: string): (r: string)
    ensures '。' !in r && Stripped(r) && CharsFrom(r, line, ". ")
  {
    Separate(line, '。', '.')
  }

  /** `handle_mao_hao`: ： becomes `: `. */
  function HandleMaoHao(line: string): (r: string)
    ensures '：' !in r && Stripped(r) && CharsFrom(r, line, ": ")
  {
    Separate(line, '：', ':')
  }

  /** `handle_fen_hao`: ； becomes `; `. */
  function HandleFenHao(line: string): (r: string)
    ensures '；' !in r && Stripped(r) && CharsFrom(r, line, "; ")
  {
    Separate(line, '；', ';')
  }

  /** `handle_wen_hao`: ？ becomes `? `. */
  function HandleWenHao(line: string): (r: string)
    ensures '？' !in r && Stripped(r) && CharsFrom(r, line, "? ")
  {
    Separate(line, '？', '?')
  }

  /** `handle_exclamation`: ！ becomes `! `. */
  function HandleExclamation(line: string): (r: string)
    ensures '！' !in r && Stripped(r) && CharsFrom(r, line, "! ")
  {
    Separate(line, '！', '!')
  }

  /** `handle_zuo_kuo_hao`: （ becomes ` (`. */
  function HandleZuoKuoHao(line: string): (r: string)
    ensures '（' !in r && Stripped(r) && CharsFrom(r, line, "( ")
  {
    Open(line, '（', '(')
  }

  /** The characters after which the closer handlers put no space. */
  const ParenClosers: string := ",.:;?!"
  const QuoteClosers: string := ",.:;?!)"

  /** `handle_you_kuo_hao`: ） becomes `)`, with a space after it unless closing
      punctuation follows. */
  function HandleYouKuoHao(line: string): (r: string)
    ensures '）' !in r && Stripped(r) && CharsFrom(r, line, ") ")
  {
    Close(line, '）', ')', ParenClosers)
  }

  /** `handle_zuo_shuang_yin_hao`: “ becomes ` "`. */
  function HandleZuoShuangYinHao(line: string): (r: string)
    ensures '“' !in r && Stripped(r) && CharsFrom(r, line, "\" ")
  {
    Open(line, '“', '"')
  }

  /** `handle_you_shuang_yin_hao`: ” becomes `"`, with a space after it unless
      closing punctuation or `)` follows. */
  function HandleYouShuangYinHao(line: string): (r: string)
    ensures '”' !in r && Stripped(r) && CharsFrom(r, line, "\" ")
  {
    Close(line, '”', '"', QuoteClosers)
  }
}
