/**
 `handle_space_between_chinese_and_english`: one space goes between an ASCII
 letter or a digit and a neighbouring non-ASCII character, in either order.
 */
module Spacing {

  import opened Text

  /** The four cases of the source in which a space is put between the
      previous character `a` and the current one `b`. */
  predicate NeedsSpace(a: char, b: char) {
    (IsAsciiLetter(a) && IsNonAscii(b))
    || (IsNonAscii(a) && IsAsciiLetter(b))
    || (IsDigit(a) && IsNonAscii(b))
    || (IsNonAscii(a) && IsDigit(b))
  }

  /** What goes between two neighbours. */
  function Gap(a: char, b: char): string {
    if NeedsSpace(a, b) then [' '] else []
  }

  /** The spaced line, built like the source builds it: character after
      character, each preceded by the gap to the one before it. */
  function Spaced(s: string): string
    decreases |s|
  {
    if |s| <= 1 then s
    else Spaced(s[..|s| - 1]) + Gap(s[|s| - 2], s[|s| - 1]) + [s[|s| - 1]]
  }

  /** The source function: the character loop with `prev_char`. */
  method HandleSpaceBetweenChineseAndEnglish(line: string) returns (r: string)
    ensures r == Spaced(line)
    ensures |r| >= |line|
    ensures |line| > 0 ==> r != [] && r[0] == line[0] && r[|r| - 1] == line[|line| - 1]
  {
    if |line| == 0 {
      return line;
    }
    var result: string := [];
    var prev: char := line[0];
    var i := 0;
    while i < |line|
      invariant 0 <= i <= |line|
      invariant result == Spaced(line[..i])
      invariant i > 0 ==> prev == line[i - 1]
    {
      var c := line[i];
      if i > 0 && NeedsSpace(prev, c) {
        result := result + [' '];
      }
      result := result + [c];
      prev := c;
      assert line[..i + 1][..i] == line[..i];
      i := i + 1;
    }
    assert line[..i] == line;
    r := result;
    SpacedBounds(line);
  }

  /** The spaced line is at least as long as the line and keeps its first and
      last character. */
  lemma {:induction false} SpacedBounds(s: string)
    ensures |Spaced(s)| >= |s|
    ensures |s| > 0 ==> Spaced(s) != [] && Spaced(s)[0] == s[0]
    ensures |s| > 0 ==> Spaced(s)[|Spaced(s)| - 1] == s[|s| - 1]
    decreases |s|
  {
    if |s| > 1 {
      SpacedBounds(s[..|s| - 1]);
    }
  }

  // ---------------------------------------------------------------------------
  // Where the spaces go
  // ---------------------------------------------------------------------------

  /** How many spaces go in before the character at index `i`. */
  function Inserted(s: string, i: nat): nat
    requires i < |s|
  {
    if i == 0 then 0
    else Inserted(s, i - 1) + |Gap(s[i - 1], s[i])|
  }

  /** The length of the spaced line: the line plus one space for every pair
      of neighbours that needs one. */
  lemma {:induction false} SpacedLength(s: string)
    requires |s| > 0
    ensures |Spaced(s)| == |s| + Inserted(s, |s| - 1)
    decreases |s|
  {
    if |s| > 1 {
      var p := s[..|s| - 1];
      var n := |s| - 1;
      SpacedLength(p);
      InsertedPrefixAt(s, n, n - 1);
    }
  }

  /** The spaced line, position by position: character `i` of the line lands
      at `i + Inserted(s, i)`, with a space just before it when it and its
      left neighbour need one. */
  lemma {:induction false} SpacedAt(s: string, i: nat)
    requires i < |s|
    ensures i + Inserted(s, i) < |Spaced(s)|
    ensures Spaced(s)[i + Inserted(s, i)] == s[i]
    ensures i > 0 && NeedsSpace(s[i - 1], s[i]) ==> Spaced(s)[i + Inserted(s, i) - 1] == ' '
    decreases |s|
  {
    if |s| > 1 {
      var p := s[..|s| - 1];
      var n := |s| - 1;
      var sp := Spaced(p);
      var g := Gap(s[n - 1], s[n]);
      assert Spaced(s) == sp + g + [s[n]];
      SpacedLength(p);
      InsertedPrefixAt(s, n, n - 1);
      if i < n {
        SpacedAt(p, i);
        InsertedPrefixAt(s, n, i);
        InsertedMono(p, i, n - 1);
        assert p[i] == s[i];
        if i > 0 {
          assert p[i - 1] == s[i - 1];
        }
      }
    }
  }

  /** More characters, at least as many spaces. */
  lemma {:induction false} InsertedMono(s: string, i: nat, j: nat)
    requires i <= j < |s|
    ensures Inserted(s, i) <= Inserted(s, j)
    decreases j
  {
    if i < j {
      InsertedMono(s, i, j - 1);
    }
  }

  /** Counting the spaces of a prefix counts them in the line. */
  lemma {:induction false} InsertedPrefix(s: string, n: nat)
    requires 0 < n <= |s|
    ensures forall i :: 0 <= i < n ==> Inserted(s[..n], i) == Inserted(s, i)
  {
    forall i | 0 <= i < n ensures Inserted(s[..n], i) == Inserted(s, i) {
      InsertedPrefixAt(s, n, i);
    }
  }

  lemma {:induction false} InsertedPrefixAt(s: string, n: nat, i: nat)
    requires i < n <= |s|
    ensures Inserted(s[..n], i) == Inserted(s, i)
    decreases i
  {
    if i > 0 {
      InsertedPrefixAt(s, n, i - 1);
      assert s[..n][i] == s[i] && s[..n][i - 1] == s[i - 1];
    }
  }

  // ---------------------------------------------------------------------------
  // Fixed points
  // ---------------------------------------------------------------------------

  /** No two neighbours need a space between them. */
  predicate WellSpaced(s: string) {
    forall i :: 0 < i < |s| ==> !NeedsSpace(s[i - 1], s[i])
  }

  /** A line changes exactly when two of its neighbours need a space; it then
      grows. */
  lemma {:induction false} SpacedUnchanged(s: string)
    ensures Spaced(s) == s <==> WellSpaced(s)
    ensures |Spaced(s)| == |s| <==> WellSpaced(s)
    decreases |s|
  {
    if |s| > 1 {
      var p := s[..|s| - 1];
      var n := |s| - 1;
      SpacedUnchanged(p);
      SpacedBounds(p);
      WellSpacedSnoc(s);
      assert Spaced(s) == Spaced(p) + Gap(s[n - 1], s[n]) + [s[n]];
      if WellSpaced(s) {
        assert p + [s[n]] == s;
      }
    }
  }

  /** A line is well spaced when its init is and its last two characters
      need no space. */
  lemma WellSpacedSnoc(s: string)
    requires |s| > 1
    ensures WellSpaced(s) <==> WellSpaced(s[..|s| - 1]) && !NeedsSpace(s[|s| - 2], s[|s| - 1])
  {
    var p := s[..|s| - 1];
    var n := |s| - 1;
    if WellSpaced(p) && !NeedsSpace(s[n - 1], s[n]) {
      forall i | 0 < i < |s| ensures !NeedsSpace(s[i - 1], s[i]) {
        if i < n {
          assert p[i] == s[i] && p[i - 1] == s[i - 1];
        }
      }
    }
    if WellSpaced(s) {
      forall i | 0 < i < |p| ensures !NeedsSpace(p[i - 1], p[i]) {
        assert p[i] == s[i] && p[i - 1] == s[i - 1];
      }
    }
  }

  /** Spacing leaves no neighbours that need a space. */
  lemma {:induction false} SpacedWellSpaced(s: string)
    ensures WellSpaced(Spaced(s))
    decreases |s|
  {
    if |s| > 1 {
      var p := s[..|s| - 1];
      SpacedWellSpaced(p);
      SpacedBounds(p);
      var sp := Spaced(p);
      var n := |s| - 1;
      var r := Spaced(s);
      assert r == sp + Gap(s[n - 1], s[n]) + [s[n]];
      assert sp[|sp| - 1] == s[n - 1];
      forall i | 0 < i < |r| ensures !NeedsSpace(r[i - 1], r[i]) {
        if i < |sp| {
          assert r[i] == sp[i] && r[i - 1] == sp[i - 1];
        } else if NeedsSpace(s[n - 1], s[n]) {
          if i == |sp| {
            assert r[i - 1] == s[n - 1] && r[i] == ' ';
          } else {
            assert r[i - 1] == ' ';
          }
        } else {
          assert r[i - 1] == s[n - 1] && r[i] == s[n];
        }
      }
    }
  }

  /** Spacing a line twice is spacing it once. */
  lemma SpacedIdempotent(s: string)
    ensures Spaced(Spaced(s)) == Spaced(s)
  {
    SpacedWellSpaced(s);
    SpacedUnchanged(Spaced(s));
  }

  /** Spacing two texts one after the other spaces each, with the gap their
      meeting characters need between them. */
  lemma {:induction false} SpacedConcat(x: string, y: string)
    requires x != [] && y != []
    ensures Spaced(x + y) == Spaced(x) + Gap(x[|x| - 1], y[0]) + Spaced(y)
    decreases |y|
  {
    var c := y[|y| - 1];
    var init := y[..|y| - 1];
    assert y == init + [c];
    if |y| == 1 {
      SpacedSnocAt(x + y, x, c);
    } else {
      var left := x + init;
      assert x + y == left + [c];
      SpacedSnocAt(x + y, left, c);
      assert left[|left| - 1] == init[|init| - 1];
      SpacedConcat(x, init);
      SpacedSnocAt(y, init, c);
      Regroup5(Spaced(x), Gap(x[|x| - 1], y[0]), Spaced(init), Gap(init[|init| - 1], c), [c]);
    }
  }

  lemma Regroup5<T>(a: seq<T>, b: seq<T>, c: seq<T>, d: seq<T>, e: seq<T>)
    ensures a + b + c + d + e == a + b + (c + d + e)
  {
  }

  /** One step of the definition: the last character and the gap before it. */
  lemma SpacedSnocAt(s: string, p: string, c: char)
    requires s == p + [c] && p != []
    ensures Spaced(s) == Spaced(p) + Gap(p[|p| - 1], c) + [c]
  {
    assert s[..|s| - 1] == p;
  }

  /** ASCII punctuation or space: never spaced from either neighbour. */
  predicate Punct(c: char) {
    !IsNonAscii(c) && !IsAsciiLetter(c) && !IsDigit(c)
  }

  /** Punctuation between two texts keeps them apart: each is spaced on its
      own and the punctuation is kept as it is. */
  lemma SpacedAround(x: string, sep: string, y: string)
    requires x != [] && sep != [] && y != []
    requires forall i :: 0 <= i < |sep| ==> Punct(sep[i])
    ensures Spaced(x + sep + y) == Spaced(x) + sep + Spaced(y)
  {
    var left := x + sep;
    PunctNoGap(x[|x| - 1], sep[0]);
    SpacedAscii(sep);
    SpacedConcat(x, sep);
    assert Spaced(left) == Spaced(x) + sep;
    assert left[|left| - 1] == sep[|sep| - 1];
    PunctNoGap(sep[|sep| - 1], y[0]);
    SpacedConcat(left, y);
    var g := Gap(left[|left| - 1], y[0]);
    assert Spaced(left) + g == Spaced(left) by { assert g == []; }
  }

  /** Punctuation after a text is kept as it is. */
  lemma SpacedPunctAfter(x: string, sep: string)
    requires x != [] && sep != []
    requires forall i :: 0 <= i < |sep| ==> Punct(sep[i])
    ensures Spaced(x + sep) == Spaced(x) + sep
  {
    PunctNoGap(x[|x| - 1], sep[0]);
    SpacedAscii(sep);
    SpacedConcat(x, sep);
    var g := Gap(x[|x| - 1], sep[0]);
    assert Spaced(x) + g == Spaced(x) by { assert g == []; }
  }

  /** Punctuation before a text is kept as it is. */
  lemma SpacedPunctBefore(sep: string, y: string)
    requires sep != [] && y != []
    requires forall i :: 0 <= i < |sep| ==> Punct(sep[i])
    ensures Spaced(sep + y) == sep + Spaced(y)
  {
    PunctNoGap(sep[|sep| - 1], y[0]);
    SpacedAscii(sep);
    SpacedConcat(sep, y);
    var g := Gap(sep[|sep| - 1], y[0]);
    assert sep + g == sep by { assert g == []; }
  }

  lemma PunctNoGap(a: char, b: char)
    requires Punct(a) || Punct(b)
    ensures Gap(a, b) == []
  {
  }

  /** A line of ASCII characters only is left alone. */
  lemma SpacedAscii(s: string)
    requires forall i :: 0 <= i < |s| ==> !IsNonAscii(s[i])
    ensures Spaced(s) == s
  {
    SpacedUnchanged(s);
  }

  /** Full-width digits are non-ASCII digits, so the source separates them
      from one another: `１２` becomes `１ ２`. */
  lemma FullWidthDigitsSeparated()
    ensures Spaced("１２") == "１ ２"
  {
    assert "１２"[..1] == "１";
  }

  /** Spacing adds nothing but spaces. */
  lemma {:induction false} SpacedChars(s: string)
    ensures CharsFrom(Spaced(s), s, " ")
    decreases |s|
  {
    if |s| > 1 {
      var p := s[..|s| - 1];
      SpacedChars(p);
      var n := |s| - 1;
      forall c | c in Spaced(s) ensures c in s || c in " " {
        assert Spaced(s) == Spaced(p) + Gap(s[n - 1], s[n]) + [s[n]];
        if c in Spaced(p) {
          if c in p {
            var k :| 0 <= k < |p| && p[k] == c;
            assert s[k] == c;
          }
        } else if c in Gap(s[n - 1], s[n]) {
          assert c == ' ';
        } else {
          assert c == s[n];
        }
      }
    }
  }

  /** A stripped line stays stripped: its ends do not move. */
  lemma SpacedStripped(s: string)
    requires Stripped(s)
    ensures Stripped(Spaced(s))
  {
    SpacedBounds(s);
  }
}
