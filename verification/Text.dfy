/**
 Character classes and the Python string primitives the normaliser is built
 from: whitespace stripping (`str.strip`, `str.rstrip`), splitting on a single
 character (`str.split`), joining (`str.join`) and substring search
 (`str.find`, the `in` operator on strings).
 */
module Text {

  import opened Wrappers

  /** Python's `str.isspace()`: exactly the code points `str.strip()` removes. */
  predicate IsSpace(c: char) {
    var n := c as int;
    (9 <= n <= 13) || (28 <= n <= 32) || n == 0x85 || n == 0xA0 || n == 0x1680
    || (0x2000 <= n <= 0x200A) || n == 0x2028 || n == 0x2029 || n == 0x202F
    || n == 0x205F || n == 0x3000
  }

  /** `c.isalpha() and ord(c) < 128`: an ASCII letter. */
  predicate IsAsciiLetter(c: char) {
    'A' <= c <= 'Z' || 'a' <= c <= 'z'
  }

  /** `ord(c) >= 128`. */
  predicate IsNonAscii(c: char) {
    c as int >= 128
  }

  /**
   `c.isdigit()`, and the class `\d` of Python regular expressions: the ASCII
   digits and their full-width forms U+FF10..U+FF19. Other Unicode digits
   are outside this model.
   */
  predicate IsDigit(c: char) {
    '0' <= c <= '9' || '０' <= c <= '９'
  }

  /** Every character is whitespace (also true of the empty string). */
  predicate Blank(s: string) {
    forall i :: 0 <= i < |s| ==> IsSpace(s[i])
  }

  /** Neither begins nor ends with whitespace: what `str.strip()` returns. */
  predicate Stripped(s: string) {
    s == [] || (!IsSpace(s[0]) && !IsSpace(s[|s| - 1]))
  }

  /** Every character of `r` comes from `s` or from `extra`. */
  predicate CharsFrom(r: string, s: string, extra: string) {
    forall c :: c in r ==> c in s || c in extra
  }

  /** `s.lstrip()` */
  function LStrip(s: string): (r: string)
    ensures |r| <= |s| && r == s[|s| - |r|..]
    ensures Blank(s[..|s| - |r|])
    ensures r == [] || !IsSpace(r[0])
  {
    if |s| > 0 && IsSpace(s[0]) then
      var p := s[1..];
      var r := LStrip(p);
      assert r == s[|s| - |r|..] by {
        assert p[|p| - |r|..] == s[|s| - |r|..];
      }
      assert p[..|p| - |r|] == s[1..|s| - |r|];
      BlankFront(s, |s| - |r|);
      r
    else s
  }

  /** Whitespace followed by a blank run is a blank run. */
  lemma BlankFront(s: string, k: nat)
    requires 0 < k <= |s| && IsSpace(s[0]) && Blank(s[1..k])
    ensures Blank(s[..k])
  {
    forall i | 0 <= i < k ensures IsSpace(s[..k][i]) {
      if i > 0 {
        assert s[..k][i] == s[1..k][i - 1];
      }
    }
  }

  /** A blank run followed by whitespace is a blank run. */
  lemma BlankBack(s: string, k: nat)
    requires k < |s| && IsSpace(s[|s| - 1])
    ensures Blank(s[k..]) <==> Blank(s[k..|s| - 1])
  {
    var u := s[k..|s| - 1];
    var v := s[k..];
    if Blank(u) {
      forall i | 0 <= i < |v| ensures IsSpace(v[i]) {
        if i < |u| {
          assert v[i] == u[i];
        }
      }
    }
    if Blank(v) {
      forall i | 0 <= i < |u| ensures IsSpace(u[i]) {
        assert u[i] == v[i];
      }
    }
  }

  /** `s.rstrip()` */
  function RStrip(s: string): (r: string)
    ensures |r| <= |s| && r == s[..|r|]
    ensures Blank(s[|r|..])
    ensures r == [] || !IsSpace(r[|r| - 1])
  {
    if |s| > 0 && IsSpace(s[|s| - 1]) then
      var p := s[..|s| - 1];
      var r := RStrip(p);
      assert r == s[..|r|] by {
        assert p[..|r|] == s[..|r|];
      }
      assert p[|r|..] == s[|r|..|s| - 1];
      BlankBack(s, |r|);
      r
    else s
  }

  /** `r` is a window of `s` with only whitespace on either side of it. */
  predicate BlankFramed(s: string, r: string) {
    exists i :: 0 <= i <= |s| - |r| && r == s[i..i + |r|] && Blank(s[..i]) && Blank(s[i + |r|..])
  }

  /** `s.strip()` */
  function Strip(s: string): (r: string)
    ensures Stripped(r)
    ensures r == [] <==> Blank(s)
  {
    var t := RStrip(s);
    var r := LStrip(t);
    StripBlank(s, t, r);
    r
  }

  /** What `Strip` leaves is the text with its blank ends cut off. */
  lemma StripFramed(s: string)
    ensures BlankFramed(s, Strip(s))
  {
    StripWindow(s, RStrip(s), LStrip(RStrip(s)));
  }

  /** `Strip` leaves nothing exactly when the text is blank. */
  lemma StripBlank(s: string, t: string, r: string)
    requires |t| <= |s| && t == s[..|t|] && Blank(s[|t|..]) && (t == [] || !IsSpace(t[|t| - 1]))
    requires |r| <= |t| && r == t[|t| - |r|..] && Blank(t[..|t| - |r|]) && (r == [] || !IsSpace(r[0]))
    ensures Stripped(r) && (r == [] <==> Blank(s))
  {
    if r == [] {
      assert t[..|t|] == t;
      assert s[0..] == s;
    } else {
      assert r[|r| - 1] == t[|t| - 1];
      assert s[|t| - |r|] == r[0];
    }
  }

  /** What `Strip` leaves is a window of `s` with blank text on both
      sides. */
  lemma StripWindow(s: string, t: string, r: string)
    requires |t| <= |s| && t == s[..|t|] && Blank(s[|t|..])
    requires |r| <= |t| && r == t[|t| - |r|..] && Blank(t[..|t| - |r|])
    ensures BlankFramed(s, r)
  {
    var i := |t| - |r|;
    assert s[..i] == t[..i];
    assert r == s[i..|t|];
    assert i + |r| == |t|;
  }

  /** Stripping only removes characters. */
  lemma StripChars(s: string)
    ensures forall c :: c in Strip(s) ==> c in s
  {
    StripFramed(s);
    FramedChars(s, Strip(s));
  }

  /** A window holds only characters of the text around it. */
  lemma FramedChars(s: string, r: string)
    requires BlankFramed(s, r)
    ensures forall c :: c in r ==> c in s
  {
    var i :| 0 <= i <= |s| - |r| && r == s[i..i + |r|] && Blank(s[..i]) && Blank(s[i + |r|..]);
    forall c | c in r ensures c in s {
      var k :| 0 <= k < |r| && r[k] == c;
      assert s[i + k] == c;
    }
  }

  /** A sequence is its two halves around any cut. */
  lemma SliceSplit<T>(s: seq<T>, k: nat)
    requires k <= |s|
    ensures s[..k] + s[k..] == s && s[k..|s|] == s[k..]
  {
  }

  /** A suffix is its two halves around any cut. */
  lemma SliceJoin<T>(s: seq<T>, i: nat, k: nat)
    requires i <= k <= |s|
    ensures s[i..k] + s[k..] == s[i..]
  {
  }

  /** Stripping text that is already stripped changes nothing. */
  lemma StripStripped(s: string)
    requires Stripped(s)
    ensures Strip(s) == s
  {
  }

  /** `glue.join(xs)` */
  function Join(xs: seq<string>, glue: string): string {
    if |xs| == 0 then []
    else if |xs| == 1 then xs[0]
    else xs[0] + glue + Join(xs[1..], glue)
  }

  /** `s.split(sep)` for a one-character separator. */
  function Split(s: string, sep: char): (r: seq<string>)
    ensures |r| > 0
    ensures forall i :: 0 <= i < |r| ==> sep !in r[i]
  {
    if |s| == 0 then [[]]
    else
      var rest := Split(s[1..], sep);
      if s[0] == sep then [[]] + rest
      else [[s[0]] + rest[0]] + rest[1..]
  }

  /** Joining the pieces of a split with the separator gives the string back. */
  lemma {:induction false} JoinSplit(s: string, sep: char)
    ensures Join(Split(s, sep), [sep]) == s
    decreases |s|
  {
    if |s| > 0 {
      JoinSplit(s[1..], sep);
      var rest := Split(s[1..], sep);
      if s[0] == sep {
        assert [sep] + Join(rest, [sep]) == s;
      } else {
        var r := [[s[0]] + rest[0]] + rest[1..];
        assert r[1..] == rest[1..];
        assert Join(r, [sep]) == [s[0]] + Join(rest, [sep]);
      }
    }
  }

  /** Splitting at a separator splits the two sides independently. */
  lemma {:induction false} SplitConcat(a: string, b: string, sep: char)
    ensures Split(a + [sep] + b, sep) == Split(a, sep) + Split(b, sep)
    decreases |a|
  {
    if |a| == 0 {
      assert a + [sep] + b == [sep] + b;
      assert ([sep] + b)[1..] == b;
    } else {
      var s := a + [sep] + b;
      assert s[1..] == a[1..] + [sep] + b;
      SplitConcat(a[1..], b, sep);
    }
  }

  /** A string without the separator splits into itself alone. */
  lemma {:induction false} SplitNoSep(a: string, sep: char)
    requires sep !in a
    ensures Split(a, sep) == [a]
    decreases |a|
  {
    if |a| > 0 {
      SplitNoSep(a[1..], sep);
      assert [a[0]] + a[1..] == a;
    }
  }

  /** Joining separator-free pieces with the separator and splitting again
      gives the pieces back. */
  lemma {:induction false} SplitJoinInverse(xs: seq<string>, sep: char)
    requires |xs| > 0
    requires forall i :: 0 <= i < |xs| ==> sep !in xs[i]
    ensures Split(Join(xs, [sep]), sep) == xs
    decreases |xs|
  {
    SplitNoSep(xs[0], sep);
    if |xs| > 1 {
      SplitJoinInverse(xs[1..], sep);
      SplitConcat(xs[0], Join(xs[1..], [sep]), sep);
      assert [xs[0]] + xs[1..] == xs;
    }
  }

  /** Joining two non-empty lists puts one glue between their joins. */
  lemma {:induction false} JoinAppend(xs: seq<string>, ys: seq<string>, glue: string)
    requires |xs| > 0 && |ys| > 0
    ensures Join(xs + ys, glue) == Join(xs, glue) + glue + Join(ys, glue)
    decreases |xs|
  {
    if |xs| > 1 {
      assert (xs + ys)[1..] == xs[1..] + ys;
      JoinAppend(xs[1..], ys, glue);
    } else {
      assert (xs + ys)[1..] == ys;
    }
  }

  /** Every character of a join comes from the glue or from one of the pieces. */
  lemma {:induction false} JoinChars(xs: seq<string>, glue: string, c: char)
    requires c in Join(xs, glue)
    ensures c in glue || exists i :: 0 <= i < |xs| && c in xs[i]
    decreases |xs|
  {
    if |xs| > 1 && c !in xs[0] && c !in glue {
      JoinChars(xs[1..], glue, c);
      var i :| 0 <= i < |xs[1..]| && c in xs[1..][i];
      assert c in xs[i + 1];
    }
  }

  /** `rstrip` of a concatenation whose right part holds non-whitespace only
      touches the right part. */
  lemma {:induction false} RStripConcat(x: string, y: string)
    ensures !Blank(y) ==> RStrip(x + y) == x + RStrip(y)
    ensures Blank(y) ==> RStrip(x + y) == RStrip(x)
    decreases |y|
  {
    if |y| > 0 {
      var s := x + y;
      var q := y[..|y| - 1];
      assert s[|s| - 1] == y[|y| - 1];
      if IsSpace(y[|y| - 1]) {
        assert s[..|s| - 1] == x + q;
        assert RStrip(s) == RStrip(x + q) && RStrip(y) == RStrip(q);
        RStripConcat(x, q);
        BlankBack(y, 0);
        assert y[0..] == y && y[0..|y| - 1] == q;
      } else {
        assert RStrip(s) == s && RStrip(y) == y;
        assert !Blank(y) by {
          assert !IsSpace(y[|y| - 1]);
        }
      }
    } else {
      assert x + y == x;
    }
  }

  /** Appending whitespace does not change the stripped text. */
  lemma StripPadRight(p: string, w: string)
    requires Blank(w)
    ensures Strip(p + w) == Strip(p)
  {
    RStripConcat(p, w);
  }

  /** Prepending whitespace does not change the stripped text. */
  lemma StripPadLeft(w: string, p: string)
    requires Blank(w)
    ensures Strip(w + p) == Strip(p)
  {
    RStripConcat(w, p);
    if Blank(p) {
      RStripConcat([], w);
      assert [] + w == w;
      RStripConcat([], p);
      assert [] + p == p;
    } else {
      LStripConcat(w, RStrip(p));
    }
  }

  /** `lstrip` skips a whitespace-only prefix entirely. */
  lemma {:induction false} LStripConcat(w: string, p: string)
    requires Blank(w)
    ensures LStrip(w + p) == LStrip(p)
    decreases |w|
  {
    if |w| > 0 {
      assert (w + p)[1..] == w[1..] + p;
      LStripConcat(w[1..], p);
    } else {
      assert w + p == p;
    }
  }

  /** `t` appears in `s` starting at index `i`. */
  predicate OccursAt(s: string, t: string, i: int) {
    0 <= i && i + |t| <= |s| && s[i..i + |t|] == t
  }

  /** `t in s` as a statement about positions. */
  ghost predicate Occurs(s: string, t: string) {
    exists i :: OccursAt(s, t, i)
  }

  /** `s.find(t, start)`: the lowest index at or after `start` where `t`
      occurs, or None for Python's -1. */
  function Find(s: string, t: string, start: nat): (r: Option<nat>)
    requires start <= |s|
    ensures r.Some? ==> start <= r.value && OccursAt(s, t, r.value)
    ensures r.Some? ==> forall j :: start <= j < r.value ==> !OccursAt(s, t, j)
    ensures r.None? ==> forall j :: start <= j ==> !OccursAt(s, t, j)
    decreases |s| - start
  {
    if OccursAt(s, t, start) then Some(start)
    else if start == |s| then None
    else Find(s, t, start + 1)
  }

  /** `t in s` */
  predicate Contains(s: string, t: string)
  {
    Find(s, t, 0).Some?
  }

  /** The scanner agrees with the positional definition of an occurrence. */
  lemma ContainsOccurs(s: string, t: string)
    ensures Contains(s, t) <==> Occurs(s, t)
  {
    var r := Find(s, t, 0);
    if r.Some? {
      assert OccursAt(s, t, r.value);
    }
  }

  /** Non-separator text appended to a string extends its last piece. */
  lemma {:induction false} SplitPadRight(a: string, w: string, sep: char)
    requires sep !in w
    ensures var p := Split(a, sep); Split(a + w, sep) == p[..|p| - 1] + [p[|p| - 1] + w]
    decreases |a|
  {
    if |a| == 0 {
      assert a + w == w;
      SplitNoSep(w, sep);
    } else {
      assert (a + w)[1..] == a[1..] + w;
      assert (a + w)[0] == a[0];
      SplitPadRight(a[1..], w, sep);
      var q := Split(a[1..], sep);
      var rest := Split(a[1..] + w, sep);
      if a[0] == sep {
        PadAfterEmptyPiece(q, rest, w);
      } else {
        PadAfterJoinedPiece(a[0], q, rest, w);
      }
    }
  }

  /** Padding the last piece commutes with putting an empty piece in front. */
  lemma PadAfterEmptyPiece(q: seq<string>, rest: seq<string>, w: string)
    requires |q| > 0 && rest == q[..|q| - 1] + [q[|q| - 1] + w]
    ensures var p := [[]] + q; [[]] + rest == p[..|p| - 1] + [p[|p| - 1] + w]
  {
    var p := [[]] + q;
    assert p[..|p| - 1] == [[]] + q[..|q| - 1];
  }

  /** Padding the last piece commutes with putting a character in front of
      the first piece. */
  lemma PadAfterJoinedPiece(c: char, q: seq<string>, rest: seq<string>, w: string)
    requires |q| > 0 && rest == q[..|q| - 1] + [q[|q| - 1] + w]
    ensures var p := [[c] + q[0]] + q[1..]; [[c] + rest[0]] + rest[1..] == p[..|p| - 1] + [p[|p| - 1] + w]
  {
    var p := [[c] + q[0]] + q[1..];
    if |q| == 1 {
      assert rest == [q[0] + w];
      assert [c] + (q[0] + w) == [c] + q[0] + w;
    } else {
      assert rest[0] == q[0];
      assert rest[1..] == q[1..|q| - 1] + [q[|q| - 1] + w];
      assert p[..|p| - 1] == [[c] + q[0]] + q[1..|q| - 1];
    }
  }

  /** Non-separator text prepended to a string extends its first piece. */
  lemma {:induction false} SplitPadLeft(w: string, b: string, sep: char)
    requires sep !in w
    ensures var p := Split(b, sep); Split(w + b, sep) == [w + p[0]] + p[1..]
    decreases |w|
  {
    if |w| > 0 {
      assert (w + b)[1..] == w[1..] + b;
      SplitPadLeft(w[1..], b, sep);
      assert [w[0]] + (w[1..] + Split(b, sep)[0]) == w + Split(b, sep)[0];
    } else {
      assert w + b == b;
      var p := Split(b, sep);
      assert w + p[0] == p[0];
      assert [p[0]] + p[1..] == p;
    }
  }

  /** A join starts with the first character of its first piece. */
  lemma JoinHead(xs: seq<string>, glue: string)
    requires |xs| > 0 && xs[0] != []
    ensures Join(xs, glue) != [] && Join(xs, glue)[0] == xs[0][0]
  {
  }

  /** Stripping text whose first part starts with non-whitespace only strips
      the second part, provided that also starts with non-whitespace. */
  lemma StripFront(x: string, y: string)
    requires x != [] && !IsSpace(x[0])
    requires y != [] && !IsSpace(y[0])
    ensures Strip(x + y) == x + Strip(y)
  {
    assert !Blank(y);
    RStripConcat(x, y);
    var r := RStrip(y);
    assert (x + r)[0] == x[0];
    if r != [] {
      assert r[0] == y[0];
    }
  }

  /** Joining a piece onto a non-empty list puts the glue after it. */
  lemma JoinCons(x: string, ys: seq<string>, glue: string)
    requires |ys| > 0
    ensures Join([x] + ys, glue) == x + glue + Join(ys, glue)
  {
    assert ([x] + ys)[1..] == ys;
  }

  /** A trailing space after a non-whitespace character is stripped away. */
  lemma StripTrailingSpace(x: string, c: char)
    requires Stripped(x) && x != [] && !IsSpace(c)
    ensures Strip(x + [c, ' ']) == x + [c]
  {
    var y := x + [c];
    assert x + [c, ' '] == y + [' '];
    RStripConcat(y, [' ']);
    assert y[..|y| - 1] == x;
    assert RStrip(y) == y;
    assert y[0] == x[0];
  }

  /** Stripping text that starts with a non-whitespace character keeps that
      character in front. */
  lemma StripHead(s: string)
    requires s != [] && !IsSpace(s[0])
    ensures Strip(s) != [] && Strip(s)[0] == s[0]
  {
    assert !Blank(s);
    var t := RStrip(s);
    assert t != [] && t[0] == s[0];
  }
}
