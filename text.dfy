/** String primitives the blank-note classifier is built from: the JavaScript
    whitespace class, `trim()`, `split('\n')`, `join('\n')` and the
    whitespace-collapsing normalisation `replace(/\s+/g, ' ').trim()`.
    Strings are sequences of characters. */
module Text {

  /** The characters matched by `\s` and removed by `trim()` in ECMAScript:
      WhiteSpace (TAB, VT, FF, SP, NBSP, ZWNBSP and the other space separators)
      together with the LineTerminators (LF, CR, LS, PS). */
  predicate IsWs(c: char) {
    var n := c as int;
    n == 0x20 || 0x09 <= n <= 0x0D || n == 0xA0 || n == 0x1680 ||
    0x2000 <= n <= 0x200A || n == 0x2028 || n == 0x2029 || n == 0x202F ||
    n == 0x205F || n == 0x3000 || n == 0xFEFF
  }

  ghost predicate AllWs(s: string) {
    forall i :: 0 <= i < |s| ==> IsWs(s[i])
  }

  /** Every whitespace character is a plain space and is followed by a
      non-whitespace character or the end of the string. */
  ghost predicate SingleSpaced(s: string) {
    forall i :: 0 <= i < |s| && IsWs(s[i]) ==> s[i] == ' ' && (i + 1 < |s| ==> !IsWs(s[i + 1]))
  }

  /** The shape of a normalised string: single-spaced, and neither starting
      nor ending with whitespace. */
  ghost predicate IsNormalized(s: string) {
    SingleSpaced(s) && (s != [] ==> !IsWs(s[0]) && !IsWs(s[|s| - 1]))
  }

  /** The non-whitespace characters of `s`, in order. */
  function NonWs(s: string): (r: string)
    ensures |r| <= |s|
    ensures forall i :: 0 <= i < |r| ==> !IsWs(r[i])
  {
    if s == [] then []
    else if IsWs(s[0]) then NonWs(s[1..])
    else [s[0]] + NonWs(s[1..])
  }

  /** Drops leading whitespace: the result is the longest suffix of `s` that
      does not start with whitespace. */
  function TrimStart(s: string): (r: string)
    ensures |r| <= |s|
    ensures forall i :: 0 <= i < |s| - |r| ==> IsWs(s[i])
    ensures r != [] ==> !IsWs(r[0])
  {
    if s != [] && IsWs(s[0]) then TrimStart(s[1..]) else s
  }

  /** Drops trailing whitespace: the result is the longest prefix of `s` that
      does not end with whitespace. */
  function TrimEnd(s: string): (r: string)
    ensures |r| <= |s|
    ensures forall i :: |r| <= i < |s| ==> IsWs(s[i])
    ensures r != [] ==> !IsWs(r[|r| - 1])
  {
    if s != [] && IsWs(s[|s| - 1]) then TrimEnd(s[..|s| - 1]) else s
  }

  /** `String.prototype.trim`. */
  function Trim(s: string): (r: string)
    ensures |r| <= |s|
    ensures r != [] ==> !IsWs(r[0]) && !IsWs(r[|r| - 1])
  {
    var t := TrimStart(s);
    var r := TrimEnd(t);
    TrimEndIsPrefix(t);
    assert r != [] ==> r[0] == t[0];
    r
  }

  /** What `TrimStart` keeps is a suffix of its input. */
  lemma {:induction false} TrimStartIsSuffix(s: string)
    ensures TrimStart(s) == s[|s| - |TrimStart(s)|..]
  {
    if s != [] && IsWs(s[0]) {
      TrimStartIsSuffix(s[1..]);
      var k := |s[1..]| - |TrimStart(s[1..])|;
      assert s[1..][k..] == s[k + 1..];
    }
  }

  /** What `TrimEnd` keeps is a prefix of its input. */
  lemma {:induction false} TrimEndIsPrefix(s: string)
    ensures TrimEnd(s) == s[..|TrimEnd(s)|]
  {
    if s != [] && IsWs(s[|s| - 1]) {
      TrimEndIsPrefix(s[..|s| - 1]);
      var k := |TrimEnd(s[..|s| - 1])|;
      assert s[..|s| - 1][..k] == s[..k];
    }
  }

  /** Trimming leaves nothing exactly when the string is all whitespace. */
  lemma TrimEmptyIffAllWs(s: string)
    ensures Trim(s) == [] <==> AllWs(s)
  {
    var t := TrimStart(s);
    TrimStartIsSuffix(s);
    TrimEndIsPrefix(t);
    if TrimEnd(t) != [] {
      assert !IsWs(t[0]) && t[0] == s[|s| - |t|];
    }
  }

  /** `s.split('\n')`: the pieces between newlines, always at least one. */
  function Split(s: string): (r: seq<string>)
    ensures |r| >= 1
    ensures forall k :: 0 <= k < |r| ==> '\n' !in r[k]
  {
    if s == [] then [[]]
    else
      var rest := Split(s[1..]);
      if s[0] == '\n' then [[]] + rest
      else [[s[0]] + rest[0]] + rest[1..]
  }

  /** `lines.join('\n')`: splitting the result of joining lines that hold no
      newline gives those lines back. */
  function Join(lines: seq<string>): (r: string)
    ensures lines != [] && (forall k :: 0 <= k < |lines| ==> '\n' !in lines[k]) ==> Split(r) == lines
  {
    if lines == [] then []
    else if |lines| == 1 then
      SplitSingleLine(lines[0]);
      lines[0]
    else
      var rest := Join(lines[1..]);
      SplitAfterLine(lines[0], rest);
      lines[0] + ['\n'] + rest
  }

  /** `s.replace(/\s+/g, ' ')`: every maximal run of whitespace becomes one
      space. */
  function Collapse(s: string): string
    decreases |s|
  {
    if s == [] then []
    else if IsWs(s[0]) then
      [' '] + Collapse(TrimStart(s))
    else [s[0]] + Collapse(s[1..])
  }

  /** What `Collapse` leaves: a single-spaced text, empty only for empty
      input, that starts with whitespace exactly when the input does. */
  lemma {:induction false} CollapseShape(s: string)
    ensures SingleSpaced(Collapse(s))
    ensures Collapse(s) == [] <==> s == []
    ensures Collapse(s) != [] ==> (IsWs(Collapse(s)[0]) <==> IsWs(s[0]))
    decreases |s|
  {
    if s != [] {
      var rest := if IsWs(s[0]) then TrimStart(s) else s[1..];
      CollapseShape(rest);
    }
  }

  /** `s.replace(/\s+/g, ' ').trim()`: the form both the note and the
      template are compared in. */
  function Normalize(s: string): (r: string)
    ensures IsNormalized(r)
  {
    var c := Collapse(s);
    CollapseShape(s);
    var t := TrimStart(c);
    TrimStartIsSuffix(c);
    SuffixSingleSpaced(c, |c| - |t|);
    var r := TrimEnd(t);
    TrimEndIsPrefix(t);
    PrefixSingleSpaced(t, |r|);
    assert Trim(c) == r;
    r
  }

  lemma SuffixSingleSpaced(s: string, k: nat)
    requires SingleSpaced(s) && k <= |s|
    ensures SingleSpaced(s[k..])
  {
    var t := s[k..];
    forall i | 0 <= i < |t| && IsWs(t[i])
      ensures t[i] == ' ' && (i + 1 < |t| ==> !IsWs(t[i + 1]))
    {
      assert t[i] == s[k + i];
      if i + 1 < |t| { assert t[i + 1] == s[k + i + 1]; }
    }
  }

  lemma PrefixSingleSpaced(s: string, k: nat)
    requires SingleSpaced(s) && k <= |s|
    ensures SingleSpaced(s[..k])
  {
  }

  // ---------------------------------------------------------------------
  // Non-whitespace content survives trimming and collapsing.

  lemma {:induction false} NonWsConcat(a: string, b: string)
    ensures NonWs(a + b) == NonWs(a) + NonWs(b)
  {
    if a == [] {
      assert a + b == b;
    } else {
      var ab := a + b;
      assert ab[0] == a[0];
      assert ab[1..] == a[1..] + b;
      NonWsConcat(a[1..], b);
      if IsWs(a[0]) {
        calc {
          NonWs(ab);
          NonWs(ab[1..]);
          NonWs(a[1..]) + NonWs(b);
          NonWs(a) + NonWs(b);
        }
      } else {
        calc {
          NonWs(ab);
          [a[0]] + NonWs(ab[1..]);
          [a[0]] + (NonWs(a[1..]) + NonWs(b));
          ([a[0]] + NonWs(a[1..])) + NonWs(b);
          NonWs(a) + NonWs(b);
        }
      }
    }
  }

  lemma {:induction false} NonWsOfAllWs(s: string)
    ensures AllWs(s) <==> NonWs(s) == []
  {
    if s != [] {
      NonWsOfAllWs(s[1..]);
      if IsWs(s[0]) && AllWs(s[1..]) {
        forall i | 0 <= i < |s| ensures IsWs(s[i]) {
          if i > 0 { assert s[i] == s[1..][i - 1]; }
        }
      }
    }
  }

  lemma {:induction false} TrimStartKeepsNonWs(s: string)
    ensures NonWs(TrimStart(s)) == NonWs(s)
  {
    if s != [] && IsWs(s[0]) {
      TrimStartKeepsNonWs(s[1..]);
    }
  }

  lemma TrimEndKeepsNonWs(s: string)
    ensures NonWs(TrimEnd(s)) == NonWs(s)
  {
    var t := TrimEnd(s);
    TrimEndIsPrefix(s);
    assert s == t + s[|t|..];
    NonWsConcat(t, s[|t|..]);
    NonWsOfAllWs(s[|t|..]);
  }

  lemma TrimKeepsNonWs(s: string)
    ensures NonWs(Trim(s)) == NonWs(s)
  {
    TrimStartKeepsNonWs(s);
    TrimEndKeepsNonWs(TrimStart(s));
  }

  lemma {:induction false} CollapseKeepsNonWs(s: string)
    ensures NonWs(Collapse(s)) == NonWs(s)
    decreases |s|
  {
    if s != [] {
      if IsWs(s[0]) {
        var t := TrimStart(s);
        CollapseKeepsNonWs(t);
        TrimStartKeepsNonWs(s);
        assert Collapse(s) == [' '] + Collapse(t);
        assert ([' '] + Collapse(t))[1..] == Collapse(t);
      } else {
        CollapseKeepsNonWs(s[1..]);
        assert ([s[0]] + Collapse(s[1..]))[1..] == Collapse(s[1..]);
      }
    }
  }

  /** Normalising keeps the non-whitespace characters, in order. */
  lemma NormalizeKeepsNonWs(s: string)
    ensures NonWs(Normalize(s)) == NonWs(s)
  {
    CollapseKeepsNonWs(s);
    TrimKeepsNonWs(Collapse(s));
  }

  // ---------------------------------------------------------------------
  // Normalisation is idempotent.

  lemma {:induction false} CollapseSingleSpaced(s: string)
    requires SingleSpaced(s)
    ensures Collapse(s) == s
    decreases |s|
  {
    if s != [] {
      SuffixSingleSpaced(s, 1);
      if IsWs(s[0]) {
        assert TrimStart(s) == s[1..] by {
          if |s| > 1 { assert !IsWs(s[1]); assert TrimStart(s[1..]) == s[1..]; }
        }
        CollapseSingleSpaced(s[1..]);
      } else {
        CollapseSingleSpaced(s[1..]);
      }
    }
  }

  /** A normalised string is a fixed point of normalisation. */
  lemma NormalizedIsFixed(s: string)
    requires IsNormalized(s)
    ensures Normalize(s) == s
  {
    CollapseSingleSpaced(s);
  }

  lemma NormalizeIdempotent(s: string)
    ensures Normalize(Normalize(s)) == Normalize(s)
  {
    NormalizedIsFixed(Normalize(s));
  }

  // ---------------------------------------------------------------------
  // Normalisation ignores how whitespace is spelled: any non-empty run of
  // whitespace counts as one space, and whitespace at either end counts as
  // nothing.

  /** Trimming the start of `a + c` drops all of `a` when `a` is whitespace,
      and otherwise trims `a` alone. */
  lemma {:induction false} TrimStartConcat(a: string, c: string)
    ensures AllWs(a) ==> TrimStart(a + c) == TrimStart(c)
    ensures !AllWs(a) ==> TrimStart(a + c) == TrimStart(a) + c
  {
    if a != [] {
      if IsWs(a[0]) {
        TrimStartConcat(a[1..], c);
        assert (a + c)[1..] == a[1..] + c;
        assert AllWs(a) <==> AllWs(a[1..]) by {
          assert forall i :: 0 <= i < |a[1..]| ==> a[1..][i] == a[i + 1];
        }
      } else {
        assert (a + c)[0] == a[0];
      }
    } else {
      assert [] + c == c;
    }
  }

  /** Collapsing ending with a single space: a text that ends in a
      non-whitespace character, followed by one space. */
  lemma {:induction false} CollapseSpaceAfter(x: string)
    requires x == [] || !IsWs(x[|x| - 1])
    ensures Collapse(x + [' ']) == Collapse(x) + [' ']
    decreases |x|
  {
    if x == [] {
      assert TrimStart([' ']) == [] by {
        assert [' '][1..] == [];
      }
      assert [] + [' '] == [' '];
    } else if IsWs(x[0]) {
      var t := TrimStart(x);
      assert t != [] && t[|t| - 1] == x[|x| - 1] by {
        TrimStartIsSuffix(x);
      }
      CollapseSpaceAfter(t);
      CollapseSpaceAfterWs(x);
    } else {
      CollapseSpaceAfter(x[1..]);
      assert x == [x[0]] + x[1..];
      CollapseSpaceAfterNonWs(x[0], x[1..]);
    }
  }

  /** The step of `CollapseSpaceAfter` for a text starting with whitespace. */
  lemma CollapseSpaceAfterWs(x: string)
    requires x != [] && IsWs(x[0]) && !AllWs(x)
    requires Collapse(TrimStart(x) + [' ']) == Collapse(TrimStart(x)) + [' ']
    ensures Collapse(x + [' ']) == Collapse(x) + [' ']
  {
    var t := TrimStart(x);
    assert Collapse(x + [' ']) == [' '] + Collapse(TrimStart(x + [' '])) by {
      assert (x + [' '])[0] == x[0];
    }
    assert TrimStart(x + [' ']) == t + [' '] by {
      TrimStartConcat(x, [' ']);
    }
    var c := Collapse(t);
    assert Collapse(x) == [' '] + c;
    assert [' '] + (c + [' ']) == ([' '] + c) + [' '];
  }

  /** The step of `CollapseSpaceAfter` for a text starting with another
      character. */
  lemma CollapseSpaceAfterNonWs(ch: char, y: string)
    requires !IsWs(ch) && Collapse(y + [' ']) == Collapse(y) + [' ']
    ensures Collapse([ch] + y + [' ']) == Collapse([ch] + y) + [' ']
  {
    assert [ch] + y + [' '] == [ch] + (y + [' ']);
    CollapseCons(ch, y + [' ']);
    CollapseCons(ch, y);
    var c := Collapse(y);
    assert [ch] + (c + [' ']) == ([ch] + c) + [' '];
  }

  /** A non-whitespace character is kept as it is. */
  lemma CollapseCons(ch: char, y: string)
    requires !IsWs(ch)
    ensures Collapse([ch] + y) == [ch] + Collapse(y)
  {
    assert ([ch] + y)[1..] == y;
  }

  /** Any non-empty whitespace run collapses like a single space. */
  lemma {:induction false} CollapseRun(a: string, w: string, b: string)
    requires w != [] && AllWs(w)
    ensures Collapse(a + w + b) == Collapse(a + [' '] + b)
    decreases |a|
  {
    if a == [] || AllWs(a) {
      CollapseRunAfterWs(a, w, b);
    } else if IsWs(a[0]) {
      CollapseRun(TrimStart(a), w, b);
      CollapseRunWs(a, w, b);
    } else {
      CollapseRun(a[1..], w, b);
      assert a == [a[0]] + a[1..];
      CollapseRunNonWs(a[0], a[1..], w, b);
    }
  }

  /** `CollapseRun` when everything before the run is whitespace. */
  lemma CollapseRunAfterWs(a: string, w: string, b: string)
    requires AllWs(a) && w != [] && AllWs(w)
    ensures Collapse(a + w + b) == Collapse(a + [' '] + b)
  {
    var s1, s2 := a + w + b, a + [' '] + b;
    assert TrimStart(s1) == TrimStart(b) by {
      assert AllWs(a + w);
      TrimStartConcat(a + w, b);
    }
    assert TrimStart(s2) == TrimStart(b) by {
      assert AllWs(a + [' ']);
      TrimStartConcat(a + [' '], b);
    }
    assert IsWs(s1[0]) && IsWs(s2[0]);
  }

  /** The step of `CollapseRun` for a prefix that starts with whitespace. */
  lemma CollapseRunWs(a: string, w: string, b: string)
    requires a != [] && IsWs(a[0]) && !AllWs(a)
    requires Collapse(TrimStart(a) + w + b) == Collapse(TrimStart(a) + [' '] + b)
    ensures Collapse(a + w + b) == Collapse(a + [' '] + b)
  {
    var s1, s2, t := a + w + b, a + [' '] + b, TrimStart(a);
    assert TrimStart(s1) == t + w + b by {
      assert s1 == a + (w + b);
      TrimStartConcat(a, w + b);
    }
    assert TrimStart(s2) == t + [' '] + b by {
      assert s2 == a + ([' '] + b);
      TrimStartConcat(a, [' '] + b);
    }
    assert IsWs(s1[0]) && IsWs(s2[0]);
  }

  /** The step of `CollapseRun` for a prefix that starts with another
      character. */
  lemma CollapseRunNonWs(ch: char, a: string, w: string, b: string)
    requires !IsWs(ch) && Collapse(a + w + b) == Collapse(a + [' '] + b)
    ensures Collapse([ch] + a + w + b) == Collapse([ch] + a + [' '] + b)
  {
    assert [ch] + a + w + b == [ch] + (a + w + b);
    assert [ch] + a + [' '] + b == [ch] + (a + [' '] + b);
    CollapseCons(ch, a + w + b);
    CollapseCons(ch, a + [' '] + b);
  }

  /** Leading whitespace makes no difference once the start is trimmed. */
  lemma LeadingWsCollapse(w: string, y: string)
    requires AllWs(w)
    ensures TrimStart(Collapse(w + y)) == TrimStart(Collapse(y))
  {
    if w != [] {
      TrimStartConcat(w, y);
      var z := Collapse(TrimStart(y));
      assert TrimStart([' '] + z) == TrimStart(z) by {
        assert ([' '] + z)[1..] == z;
      }
      if y != [] && IsWs(y[0]) {
        assert Collapse(y) == [' '] + z;
      }
    } else {
      assert [] + y == y;
    }
  }

  /** A trailing space makes no difference once both ends are trimmed. */
  lemma TrimSpaceAfter(x: string)
    ensures TrimEnd(TrimStart(x + [' '])) == TrimEnd(TrimStart(x))
  {
    TrimStartConcat(x, [' ']);
    if AllWs(x) {
      TrimStartConcat(x, []);
      assert x + [] == x;
      assert TrimStart([' ']) == TrimStart([]);
    } else {
      var z := TrimStart(x);
      assert (z + [' '])[..|z|] == z;
    }
  }

  /** A text followed by a whitespace run collapses like its trimmed end
      followed by one space. */
  lemma CollapseTrailingRun(y: string, t: string)
    requires t != [] && AllWs(t) && (y == [] || !IsWs(y[|y| - 1]))
    ensures Collapse(y + t) == Collapse(y) + [' ']
  {
    assert y + t == y + t + [];
    CollapseRun(y, t, []);
    assert y + [' '] + [] == y + [' '];
    CollapseSpaceAfter(y);
  }

  /** A text is its trimmed end followed by whitespace. */
  lemma TrimEndSplit(y: string) returns (t: string)
    ensures y == TrimEnd(y) + t && AllWs(t)
  {
    TrimEndIsPrefix(y);
    var k := |TrimEnd(y)|;
    t := y[k..];
    assert forall i :: 0 <= i < |t| ==> t[i] == y[k + i];
  }

  /** The trimmed end of a text, followed by a whitespace run, collapses to
      the collapsed trimmed end followed by one space. */
  lemma CollapseAfterTrimEnd(y: string, t: string)
    requires t != [] && AllWs(t)
    ensures Collapse(TrimEnd(y) + t) == Collapse(TrimEnd(y)) + [' ']
  {
    CollapseTrailingRun(TrimEnd(y), t);
  }

  /** The same, for a run given in two parts of which the second is not
      empty. */
  lemma CollapseAfterTrimEndTwoPartRun(y: string, t: string, w: string)
    requires AllWs(t) && w != [] && AllWs(w)
    ensures Collapse(TrimEnd(y) + t + w) == Collapse(TrimEnd(y)) + [' ']
  {
    var p := TrimEnd(y);
    assert p + t + w == p + (t + w);
    assert AllWs(t + w);
    CollapseTrailingRun(p, t + w);
  }

  /** Trailing whitespace makes no difference once both ends are trimmed. */
  lemma TrailingWsCollapse(y: string, w: string)
    requires AllWs(w)
    ensures TrimEnd(TrimStart(Collapse(y + w))) == TrimEnd(TrimStart(Collapse(y)))
  {
    if w == [] {
      assert y + w == y;
    } else {
      var t := TrimEndSplit(y);
      // Both texts collapse to that of the trimmed end, followed by at most
      // one space.
      CollapseAfterTrimEndTwoPartRun(y, t, w);
      if t != [] {
        CollapseAfterTrimEnd(y, t);
      } else {
        assert y == TrimEnd(y);
      }
      TrimSpaceAfter(Collapse(TrimEnd(y)));
    }
  }

  /** Texts that differ only in how one whitespace run is spelled normalise
      alike. */
  lemma NormalizeIgnoresRuns(a: string, w1: string, w2: string, b: string)
    requires w1 != [] && AllWs(w1) && w2 != [] && AllWs(w2)
    ensures Normalize(a + w1 + b) == Normalize(a + w2 + b)
  {
    CollapseRun(a, w1, b);
    CollapseRun(a, w2, b);
  }

  /** Whitespace before and after a text does not change its normalisation. */
  lemma NormalizeIgnoresEnds(w1: string, s: string, w2: string)
    requires AllWs(w1) && AllWs(w2)
    ensures Normalize(w1 + s + w2) == Normalize(s)
  {
    LeadingWsCollapse(w1, s + w2);
    assert w1 + s + w2 == w1 + (s + w2);
    TrailingWsCollapse(s, w2);
  }

  // ---------------------------------------------------------------------
  // split and join are inverse.

  lemma {:induction false} JoinSplit(s: string)
    ensures Join(Split(s)) == s
  {
    if s != [] {
      var rest := Split(s[1..]);
      JoinSplit(s[1..]);
      if s[0] == '\n' {
        assert Split(s) == [[]] + rest;
        assert ([[]] + rest)[1..] == rest;
      } else {
        var r := Split(s);
        assert r == [[s[0]] + rest[0]] + rest[1..];
        if |rest| == 1 {
          assert Join(r) == [s[0]] + rest[0];
        } else {
          assert r[1..] == rest[1..];
          assert Join(r) == [s[0]] + (rest[0] + ['\n'] + Join(rest[1..]));
        }
        assert s == [s[0]] + s[1..];
      }
    }
  }

  lemma {:induction false} SplitAfterLine(line: string, s: string)
    ensures '\n' !in line ==> Split(line + ['\n'] + s) == [line] + Split(s)
  {
    if line == [] {
      assert ([] + ['\n'] + s)[1..] == s;
    } else if '\n' !in line {
      assert (line + ['\n'] + s)[1..] == line[1..] + ['\n'] + s;
      SplitAfterLine(line[1..], s);
      assert [line[0]] + line[1..] == line;
    }
  }

  lemma {:induction false} SplitSingleLine(line: string)
    ensures '\n' !in line ==> Split(line) == [line]
  {
    if line != [] && '\n' !in line {
      SplitSingleLine(line[1..]);
      assert [line[0]] + line[1..] == line;
    }
  }

  /** The joined text is all whitespace exactly when every line is (the
      separator '\n' is whitespace). */
  lemma {:induction false} JoinAllWs(lines: seq<string>)
    ensures AllWs(Join(lines)) <==> forall k :: 0 <= k < |lines| ==> AllWs(lines[k])
  {
    if |lines| > 1 {
      JoinAllWs(lines[1..]);
      var j := Join(lines[1..]);
      var r := lines[0] + ['\n'] + j;
      assert forall i :: 0 <= i < |lines[0]| ==> r[i] == lines[0][i];
      assert forall i :: 0 <= i < |j| ==> r[|lines[0]| + 1 + i] == j[i];
      assert r[|lines[0]|] == '\n';
      if AllWs(r) {
        forall k | 0 <= k < |lines| ensures AllWs(lines[k]) {
          if k > 0 { assert lines[k] == lines[1..][k - 1]; }
        }
      }
      if forall k :: 0 <= k < |lines| ==> AllWs(lines[k]) {
        assert AllWs(lines[0]);
        assert forall k :: 0 <= k < |lines[1..]| ==> lines[1..][k] == lines[k + 1];
        forall i | 0 <= i < |r| ensures IsWs(r[i]) {
          if i > |lines[0]| { assert r[i] == j[i - |lines[0]| - 1]; }
        }
      }
    }
  }
}
