/**
 * The three string operations the jurisdiction lookup by name relies on:
 * `String.prototype.toLowerCase`, `String.prototype.includes` and
 * `replace(/\s+/g, "-")`, which turns every run of whitespace into one dash.
 */
module Text {

  /** The characters matched by the regular-expression class `\s`, by code point. */
  predicate IsWhitespace(c: char) {
    var n := c as int;
    (0x09 <= n <= 0x0D) || n == 0x20 || n == 0xA0 || n == 0x1680 ||
    (0x2000 <= n <= 0x200A) || n == 0x2028 || n == 0x2029 || n == 0x202F ||
    n == 0x205F || n == 0x3000 || n == 0xFEFF
  }

  /** Lower-casing of one character; only the letters A to Z have a lower-case form here. */
  function Lower(c: char): (r: char)
    ensures 'A' <= c <= 'Z' ==> r as int == c as int + 32 && 'a' <= r <= 'z'
    ensures !('A' <= c <= 'Z') ==> r == c
    ensures IsWhitespace(r) == IsWhitespace(c)
    ensures !('A' <= r <= 'Z')
  {
    if 'A' <= c <= 'Z' then (c as int + ('a' as int - 'A' as int)) as char else c
  }

  /** Two characters lower-case alike exactly when they are equal or are one letter in its two cases. */
  lemma LowerEqualIff(c: char, d: char)
    ensures Lower(c) == Lower(d) <==>
            c == d || ('A' <= c <= 'Z' && d as int == c as int + 32) || ('A' <= d <= 'Z' && c as int == d as int + 32)
  {
  }

  /** `s.toLowerCase()`: each character lower-cased, nothing added or removed. */
  function ToLower(s: string): (r: string)
    ensures |r| == |s|
    ensures forall i :: 0 <= i < |s| ==> r[i] == Lower(s[i])
  {
    if s == [] then [] else [Lower(s[0])] + ToLower(s[1..])
  }

  /** Lower-casing twice is lower-casing once. */
  lemma {:induction false} ToLowerIdempotent(s: string)
    ensures ToLower(ToLower(s)) == ToLower(s)
  {
    if s != [] {
      ToLowerIdempotent(s[1..]);
      assert ToLower(s)[1..] == ToLower(s[1..]);
    }
  }

  /** `t` occurs in `s` starting at position `i`. */
  predicate OccursAt(s: string, t: string, i: int) {
    0 <= i && i + |t| <= |s| && s[i..i + |t|] == t
  }

  /** `s.includes(t)`: `t` is a prefix of `s` or of one of its suffixes. */
  predicate Contains(s: string, t: string)
    decreases |s|
  {
    (|t| <= |s| && s[..|t|] == t) || (s != [] && Contains(s[1..], t))
  }

  /** Contains is exactly "occurs at some position". */
  lemma {:induction false} ContainsIff(s: string, t: string)
    ensures Contains(s, t) <==> exists i :: OccursAt(s, t, i)
  {
    if |t| <= |s| && s[..|t|] == t {
      assert OccursAt(s, t, 0);
    } else if s != [] {
      ContainsIff(s[1..], t);
      if Contains(s[1..], t) {
        var i :| OccursAt(s[1..], t, i);
        assert s[i + 1..i + 1 + |t|] == s[1..][i..i + |t|];
        assert OccursAt(s, t, i + 1);
      }
      if exists i :: OccursAt(s, t, i) {
        var i :| OccursAt(s, t, i);
        assert i != 0;
        assert s[1..][i - 1..i - 1 + |t|] == s[i..i + |t|];
        assert OccursAt(s[1..], t, i - 1);
      }
    }
  }

  /** Every string contains the empty string. */
  lemma ContainsEmpty(s: string)
    ensures Contains(s, "")
  {
  }

  /** Strips the whitespace run at the front of `s`: what `\s+` consumes. */
  function DropWhitespace(s: string): (r: string)
    ensures |r| <= |s| && r == s[|s| - |r|..]
    ensures forall i :: 0 <= i < |s| - |r| ==> IsWhitespace(s[i])
    ensures r == [] || !IsWhitespace(r[0])
  {
    if s != [] && IsWhitespace(s[0]) then DropWhitespace(s[1..]) else s
  }

  /** `s.replace(/\s+/g, "-")`: each maximal whitespace run becomes one `-`. */
  function Slugify(s: string): (r: string)
    ensures |r| <= |s|
    ensures forall i :: 0 <= i < |r| ==> !IsWhitespace(r[i])
    decreases |s|
  {
    if s == [] then []
    else if IsWhitespace(s[0]) then "-" + Slugify(DropWhitespace(s))
    else [s[0]] + Slugify(s[1..])
  }

  /** A string without whitespace is left as it is. */
  lemma {:induction false} SlugifyKeepsWords(s: string)
    requires forall i :: 0 <= i < |s| ==> !IsWhitespace(s[i])
    ensures Slugify(s) == s
  {
    if s != [] {
      SlugifyKeepsWords(s[1..]);
    }
  }

  /** Replacing the whitespace runs a second time changes nothing. */
  lemma SlugifyIdempotent(s: string)
    ensures Slugify(Slugify(s)) == Slugify(s)
  {
    SlugifyKeepsWords(Slugify(s));
  }

  /** A whitespace run followed by a word becomes a single dash before that word. */
  lemma {:induction false} SlugifyRun(w: string, b: string)
    requires |w| > 0 && forall i :: 0 <= i < |w| ==> IsWhitespace(w[i])
    requires b == [] || !IsWhitespace(b[0])
    ensures Slugify(w + b) == "-" + Slugify(b)
  {
    DropWhitespaceRun(w, b);
    assert (w + b)[0] == w[0];
  }

  /** Dropping the leading whitespace of a run followed by a word leaves the word. */
  lemma {:induction false} DropWhitespaceRun(w: string, b: string)
    requires forall i :: 0 <= i < |w| ==> IsWhitespace(w[i])
    requires b == [] || !IsWhitespace(b[0])
    ensures DropWhitespace(w + b) == b
  {
    if w == [] {
      assert w + b == b;
    } else {
      assert (w + b)[0] == w[0] && (w + b)[1..] == w[1..] + b;
      DropWhitespaceRun(w[1..], b);
    }
  }

  /** When `a` is not all whitespace, dropping the leading run of `a + b` stays inside `a`. */
  lemma {:induction false} DropWhitespaceAppend(a: string, b: string)
    requires DropWhitespace(a) != []
    ensures DropWhitespace(a + b) == DropWhitespace(a) + b
  {
    ConcatHead(a, b);
    if IsWhitespace(a[0]) {
      ConcatTail(a, b);
      DropWhitespaceAppend(a[1..], b);
    }
  }

  /** What is left after dropping the leading whitespace ends where the string ends. */
  lemma DropWhitespaceKeepsLast(s: string)
    requires DropWhitespace(s) != []
    ensures DropWhitespace(s)[|DropWhitespace(s)| - 1] == s[|s| - 1]
  {
    var r := DropWhitespace(s);
    assert r == s[|s| - |r|..];
  }

  /** The first character of a concatenation with a non-empty left part. */
  lemma ConcatHead(a: string, b: string)
    requires a != []
    ensures a + b != [] && (a + b)[0] == a[0]
  {
  }

  /** The tail of a concatenation with a non-empty left part. */
  lemma ConcatTail(a: string, b: string)
    requires a != []
    ensures (a + b)[1..] == a[1..] + b
  {
  }

  /** Concatenation is associative. */
  lemma ConcatAssoc(x: string, y: string, z: string)
    ensures x + (y + z) == (x + y) + z
  {
  }

  /** Splitting `a + b` between `a` and `b` does not cut a whitespace run in two. */
  predicate KeepsRuns(a: string, b: string) {
    a == [] || b == [] || !IsWhitespace(a[|a| - 1]) || !IsWhitespace(b[0])
  }

  /**
   * Replacing runs works piecewise: `a + b` may be split anywhere that does
   * not cut a whitespace run in two.
   */
  lemma {:induction false} SlugifyAppend(a: string, b: string)
    requires KeepsRuns(a, b)
    ensures Slugify(a + b) == Slugify(a) + Slugify(b)
    decreases |a|, 1
  {
    if a == [] {
      assert a + b == b;
    } else if b == [] {
      assert a + b == a;
    } else if !IsWhitespace(a[0]) {
      SlugifyAppendWord(a, b);
    } else if DropWhitespace(a) == [] {
      SlugifyAppendRun(a, b);
    } else {
      SlugifyAppendRunThenWord(a, b);
    }
  }

  /** Unfolding Slugify at a word character. */
  lemma SlugifyWordHead(c: char, s: string)
    requires !IsWhitespace(c)
    ensures Slugify([c] + s) == [c] + Slugify(s)
  {
    assert ([c] + s)[0] == c && ([c] + s)[1..] == s;
  }

  /** Unfolding Slugify at a whitespace character. */
  lemma SlugifyRunHead(s: string)
    requires s != [] && IsWhitespace(s[0])
    ensures Slugify(s) == "-" + Slugify(DropWhitespace(s))
  {
  }

  /** SlugifyAppend when `a` starts with a non-whitespace character. */
  lemma {:induction false} SlugifyAppendWord(a: string, b: string)
    requires a != [] && !IsWhitespace(a[0]) && KeepsRuns(a, b)
    ensures Slugify(a + b) == Slugify(a) + Slugify(b)
    decreases |a|, 0
  {
    var c, t := a[0], a[1..];
    assert a == [c] + t;
    assert a + b == [c] + (t + b);
    assert KeepsRuns(t, b) by {
      if t != [] { assert t[|t| - 1] == a[|a| - 1]; }
    }
    SlugifyAppend(t, b);
    SlugifyWordHead(c, t + b);
    SlugifyWordHead(c, t);
    ConcatAssoc([c], Slugify(t), Slugify(b));
  }

  /** SlugifyAppend when `a` is one whole whitespace run. */
  lemma SlugifyAppendRun(a: string, b: string)
    requires a != [] && b != [] && DropWhitespace(a) == [] && KeepsRuns(a, b)
    ensures Slugify(a + b) == Slugify(a) + Slugify(b)
  {
    assert (a + b)[0] == a[0];
    DropWhitespaceRun(a, b);
  }

  /** SlugifyAppend when `a` starts with a whitespace run followed by a word. */
  lemma {:induction false} SlugifyAppendRunThenWord(a: string, b: string)
    requires a != [] && IsWhitespace(a[0]) && DropWhitespace(a) != [] && KeepsRuns(a, b)
    ensures Slugify(a + b) == Slugify(a) + Slugify(b)
    decreases |a|, 0
  {
    var d := DropWhitespace(a);
    DropWhitespaceAppend(a, b);
    DropWhitespaceKeepsLast(a);
    SlugifyAppend(d, b);
    ConcatHead(a, b);
    SlugifyRunHead(a + b);
    SlugifyRunHead(a);
    ConcatAssoc("-", Slugify(d), Slugify(b));
  }

  /** Dropping leading whitespace commutes with lower-casing. */
  lemma {:induction false} DropWhitespaceToLower(s: string)
    ensures ToLower(DropWhitespace(s)) == DropWhitespace(ToLower(s))
  {
    if s != [] && IsWhitespace(s[0]) {
      assert ToLower(s)[1..] == ToLower(s[1..]);
      DropWhitespaceToLower(s[1..]);
    }
  }

  /** Lower-casing before or after replacing whitespace runs gives the same string. */
  lemma {:induction false} SlugifyToLower(s: string)
    ensures Slugify(ToLower(s)) == ToLower(Slugify(s))
    decreases |s|
  {
    if s != [] {
      var l := ToLower(s);
      assert l[1..] == ToLower(s[1..]);
      if IsWhitespace(s[0]) {
        DropWhitespaceToLower(s);
        SlugifyToLower(DropWhitespace(s));
      } else {
        SlugifyToLower(s[1..]);
      }
    }
  }
}
