/**
 * Text handling used by the game engine: whitespace trimming, the
 * answer normalisation of `normalize_text`, ASCII case folding and the
 * case-insensitive ordering that SQLite's NOCASE collation gives.
 *
 * Whitespace is approximated by the ASCII whitespace characters and case
 * folding by mapping 'A'..'Z' onto 'a'..'z'.
 */
module Text {

  /** A whitespace character: space, tab, newline, vertical tab, form feed, carriage return. */
  predicate IsSpace(c: char) {
    c == ' ' || ('\t' <= c <= '\r')
  }

  predicate AllSpace(s: string) {
    forall i :: 0 <= i < |s| ==> IsSpace(s[i])
  }

  /** No whitespace at either end. */
  predicate Trimmed(s: string) {
    s == [] || (!IsSpace(s[0]) && !IsSpace(s[|s| - 1]))
  }

  /** ASCII case folding of one character. */
  function Lower(c: char): (r: char)
    ensures IsSpace(r) <==> IsSpace(c)
    ensures !('A' <= r <= 'Z')
    ensures 'A' <= c <= 'Z' ==> 'a' <= r <= 'z' && r as int - 'a' as int == c as int - 'A' as int
    ensures !('A' <= c <= 'Z') ==> r == c
  {
    if 'A' <= c <= 'Z' then (c as int + 32) as char else c
  }

  function LowerAll(s: string): (r: string)
    ensures |r| == |s|
    ensures forall i :: 0 <= i < |s| ==> r[i] == Lower(s[i])
  {
    seq(|s|, i requires 0 <= i < |s| => Lower(s[i]))
  }

  /** Drops leading whitespace; what remains is a suffix of `s`. */
  function TrimLeft(s: string): (r: string)
    ensures |r| <= |s| && r == s[|s| - |r|..]
    ensures AllSpace(s[..|s| - |r|])
    ensures r == [] || !IsSpace(r[0])
  {
    if s != [] && IsSpace(s[0]) then
      var r := TrimLeft(s[1..]);
      assert s[..|s| - |r|] == [s[0]] + s[1..][..|s| - 1 - |r|];
      SpaceAppend([s[0]], s[1..][..|s| - 1 - |r|]);
      r
    else s
  }

  /** Drops trailing whitespace; what remains is a prefix of `s`. */
  function TrimRight(s: string): (r: string)
    ensures |r| <= |s| && r == s[..|r|]
    ensures AllSpace(s[|r|..])
    ensures r == [] || !IsSpace(r[|r| - 1])
  {
    if s != [] && IsSpace(s[|s| - 1]) then
      var t := s[..|s| - 1];
      var r := TrimRight(t);
      assert s[|r|..] == t[|r|..] + [s[|s| - 1]];
      SpaceAppend(t[|r|..], [s[|s| - 1]]);
      r
    else s
  }

  /**
   * Python's `str.strip()`: the result is the slice of `s` left after
   * removing whitespace from both ends, and only whitespace was removed.
   */
  function Trim(s: string): (r: string)
    ensures Trimmed(r)
    ensures Trimmed(s) ==> r == s
  {
    TrimRight(TrimLeft(s))
  }

  /** Trimming removes whitespace, and only whitespace, from the two ends of `s`. */
  lemma TrimIsSlice(s: string)
    ensures var r := Trim(s);
            exists i :: 0 <= i <= |s| - |r| && r == s[i..i + |r|] && AllSpace(s[..i]) && AllSpace(s[i + |r|..])
  {
    var r := Trim(s);
    var a, b := TrimSplit(s);
    var i := |a|;
    assert s[..i] == a && s[i..i + |r|] == r && s[i + |r|..] == b;
  }

  /**
   * Replaces every maximal run of whitespace by a single space, as
   * `re.sub(r"\s+", " ", s)` does.
   */
  function Collapse(s: string): (r: string)
    ensures (r == []) <==> (s == [])
    ensures s != [] && !IsSpace(s[0]) ==> r[0] == s[0]
    ensures s != [] && !IsSpace(s[|s| - 1]) ==> r[|r| - 1] == s[|s| - 1]
    ensures forall i :: 0 <= i < |r| && IsSpace(r[i]) ==> r[i] == ' '
    ensures forall i :: 0 <= i < |r| - 1 ==> !(IsSpace(r[i]) && IsSpace(r[i + 1]))
    decreases |s|
  {
    if s == [] then []
    else if IsSpace(s[0]) then [' '] + Collapse(TrimLeft(s))
    else [s[0]] + Collapse(s[1..])
  }

  /** Collapsing keeps every non-whitespace character, in order: only whitespace runs change. */
  lemma {:induction false} CollapseKeepsWords(s: string)
    ensures NonSpace(Collapse(s)) == NonSpace(s)
    decreases |s|
  {
    if s != [] {
      if IsSpace(s[0]) {
        var t := TrimLeft(s);
        assert |t| < |s| && Collapse(s) == [' '] + Collapse(t);
        calc {
          NonSpace(Collapse(s));
        == { NonSpaceCons(' ', Collapse(t)); }
          NonSpace(Collapse(t));
        == { CollapseKeepsWords(t); }
          NonSpace(t);
        == { SkipSpaceKeepsWords(s); }
          NonSpace(s);
        }
      } else {
        var t := s[1..];
        assert Collapse(s) == [s[0]] + Collapse(t);
        calc {
          NonSpace(Collapse(s));
        == { NonSpaceCons(s[0], Collapse(t)); }
          [s[0]] + NonSpace(Collapse(t));
        == { CollapseKeepsWords(t); }
          [s[0]] + NonSpace(t);
        == { NonSpaceCons(s[0], t); assert s == [s[0]] + t; }
          NonSpace(s);
        }
      }
    }
  }

  /** Leading whitespace of `a + b` lies within `a` when `a` ends with a non-space. */
  lemma {:induction false} TrimLeftAppend(a: string, b: string)
    requires a != [] && !IsSpace(a[|a| - 1])
    ensures TrimLeft(a + b) == TrimLeft(a) + b
    decreases |a|
  {
    assert (a + b)[0] == a[0];
    if IsSpace(a[0]) {
      assert (a + b)[1..] == a[1..] + b;
      TrimLeftAppend(a[1..], b);
    }
  }

  /** Text that ends with a non-space collapses independently of what follows it. */
  lemma {:induction false} CollapseAppend(a: string, b: string)
    requires a == [] || !IsSpace(a[|a| - 1])
    ensures Collapse(a + b) == Collapse(a) + Collapse(b)
    decreases |a|
  {
    if a == [] {
      assert a + b == b;
    } else if IsSpace(a[0]) {
      var t := TrimLeft(a);
      TrimLeftAppend(a, b);
      assert t != [] && |t| < |a| by {
        assert t == [] || t[0] == a[|a| - |t|];
      }
      assert (a + b)[0] == a[0];
      CollapseAppend(t, b);
      Associative([' '], Collapse(t), Collapse(b));
    } else {
      assert (a + b)[0] == a[0] && (a + b)[1..] == a[1..] + b;
      CollapseAppend(a[1..], b);
      Associative([a[0]], Collapse(a[1..]), Collapse(b));
    }
  }

  /**
   * A run of whitespace between two words becomes exactly one space:
   * `re.sub(r"\s+", " ", ...)` on `a + w + b`.
   */
  lemma CollapseRun(a: string, w: string, b: string)
    requires a == [] || !IsSpace(a[|a| - 1])
    requires w != [] && AllSpace(w)
    requires b == [] || !IsSpace(b[0])
    ensures Collapse(a + w + b) == Collapse(a) + " " + Collapse(b)
  {
    Associative(a, w, b);
    CollapseAppend(a, w + b);
    assert (w + b)[0] == w[0];
    TrimLeftSkips(w, b);
    Associative(Collapse(a), " ", Collapse(b));
  }

  /** The non-whitespace characters of `s`, in order. */
  function NonSpace(s: string): string
    decreases |s|
  {
    if s == [] then []
    else (if IsSpace(s[0]) then [] else [s[0]]) + NonSpace(s[1..])
  }

  lemma NonSpaceCons(c: char, t: string)
    ensures NonSpace([c] + t) == (if IsSpace(c) then [] else [c]) + NonSpace(t)
  {
    assert ([c] + t)[1..] == t;
  }

  lemma {:induction false} NonSpaceAppend(a: string, b: string)
    ensures NonSpace(a + b) == NonSpace(a) + NonSpace(b)
    decreases |a|
  {
    if a != [] {
      var h := if IsSpace(a[0]) then [] else [a[0]];
      assert (a + b)[0] == a[0] && (a + b)[1..] == a[1..] + b;
      NonSpaceAppend(a[1..], b);
      assert NonSpace(a + b) == h + (NonSpace(a[1..]) + NonSpace(b));
    } else {
      assert a + b == b;
    }
  }

  lemma {:induction false} NonSpaceOfSpace(a: string)
    requires AllSpace(a)
    ensures NonSpace(a) == []
    decreases |a|
  {
    if a != [] {
      assert AllSpace(a[1..]) by {
        forall i | 0 <= i < |a| - 1 ensures IsSpace(a[1..][i]) {
          assert a[1..][i] == a[i + 1];
        }
      }
      NonSpaceOfSpace(a[1..]);
    }
  }

  /** Dropping leading whitespace drops no word character. */
  lemma SkipSpaceKeepsWords(s: string)
    ensures NonSpace(TrimLeft(s)) == NonSpace(s)
  {
    var t := TrimLeft(s);
    var k := |s| - |t|;
    assert s == s[..k] + t;
    NonSpaceAppend(s[..k], t);
    NonSpaceOfSpace(s[..k]);
  }

  /** The normal form of an answer: trimmed, single-spaced and case-folded (`normalize_text`). */
  function Normalize(s: string): (r: string)
    ensures r == [] <==> AllSpace(s)
  {
    TrimEmpty(s);
    LowerAll(Collapse(Trim(s)))
  }

  /** `strip()` leaves nothing exactly when the text is all whitespace. */
  lemma TrimEmpty(s: string)
    ensures Trim(s) == [] <==> AllSpace(s)
  {
    var l := TrimLeft(s);
    if l != [] {
      assert l[0] == s[|s| - |l|];
      assert l[0] == l[0..][0];
    }
  }

  /** The shape every result of `Normalize` has. */
  predicate Normalized(s: string) {
    && Trimmed(s)
    && (forall i :: 0 <= i < |s| ==> Lower(s[i]) == s[i])
    && (forall i :: 0 <= i < |s| && IsSpace(s[i]) ==> s[i] == ' ')
    && (forall i :: 0 <= i < |s| - 1 ==> !(IsSpace(s[i]) && IsSpace(s[i + 1])))
  }

  lemma NormalizeIsNormalized(s: string)
    ensures Normalized(Normalize(s))
  {
    var t := Trim(s);
    var c := Collapse(t);
    if c != [] {
      assert !IsSpace(c[0]) && !IsSpace(c[|c| - 1]);
    }
    LowerAllNormalized(c);
  }

  /** Case folding keeps the whitespace shape and yields folded text. */
  lemma LowerAllNormalized(c: string)
    requires Trimmed(c)
    requires forall i :: 0 <= i < |c| && IsSpace(c[i]) ==> c[i] == ' '
    requires forall i :: 0 <= i < |c| - 1 ==> !(IsSpace(c[i]) && IsSpace(c[i + 1]))
    ensures Normalized(LowerAll(c))
  {
    var n := LowerAll(c);
    assert forall i :: 0 <= i < |n| ==> (IsSpace(n[i]) <==> IsSpace(c[i]));
  }

  /** Collapsing is the identity on text whose only whitespace is single spaces. */
  lemma {:induction false} CollapseFixed(s: string)
    requires forall i :: 0 <= i < |s| && IsSpace(s[i]) ==> s[i] == ' '
    requires forall i :: 0 <= i < |s| - 1 ==> !(IsSpace(s[i]) && IsSpace(s[i + 1]))
    ensures Collapse(s) == s
    decreases |s|
  {
    if s != [] {
      var t := s[1..];
      CollapseStep(s);
      CollapseFixed(t);
      assert s == [s[0]] + t;
    }
  }

  /** A lone leading space, or a leading non-space, is kept and collapsing goes on after it. */
  lemma CollapseStep(s: string)
    requires s != []
    requires IsSpace(s[0]) ==> s[0] == ' ' && (|s| > 1 ==> !IsSpace(s[1]))
    ensures Collapse(s) == [s[0]] + Collapse(s[1..])
  {
    var t := s[1..];
    if IsSpace(s[0]) {
      assert TrimLeft(s) == TrimLeft(t);
      if t != [] { assert !IsSpace(t[0]); }
    }
  }

  lemma NormalizedIsFixed(s: string)
    requires Normalized(s)
    ensures Normalize(s) == s
  {
    CollapseFixed(s);
  }

  /** `normalize_text` is idempotent. */
  lemma NormalizeIdempotent(s: string)
    ensures Normalize(Normalize(s)) == Normalize(s)
  {
    NormalizeIsNormalized(s);
    NormalizedIsFixed(Normalize(s));
  }

  // Normalisation ignores case

  lemma {:induction false} TrimLeftLower(s: string)
    ensures TrimLeft(LowerAll(s)) == LowerAll(TrimLeft(s))
    decreases |s|
  {
    if s != [] {
      assert LowerAll(s)[1..] == LowerAll(s[1..]);
      TrimLeftLower(s[1..]);
    }
  }

  lemma {:induction false} TrimRightLower(s: string)
    ensures TrimRight(LowerAll(s)) == LowerAll(TrimRight(s))
    decreases |s|
  {
    if s != [] {
      assert LowerAll(s)[..|s| - 1] == LowerAll(s[..|s| - 1]);
      TrimRightLower(s[..|s| - 1]);
    }
  }

  lemma LowerAllCons(c: char, t: string)
    ensures LowerAll([c] + t) == [Lower(c)] + LowerAll(t)
  {
    assert LowerAll([c] + t)[1..] == LowerAll(t);
  }

  lemma {:induction false} CollapseLower(s: string)
    ensures Collapse(LowerAll(s)) == LowerAll(Collapse(s))
    decreases |s|
  {
    if s != [] {
      var l := LowerAll(s);
      assert l[0] == Lower(s[0]);
      if IsSpace(s[0]) {
        var t := TrimLeft(s);
        TrimLeftLower(s);
        assert Collapse(l) == [' '] + Collapse(LowerAll(t));
        CollapseLower(t);
        LowerAllCons(' ', Collapse(t));
      } else {
        assert l[1..] == LowerAll(s[1..]);
        assert Collapse(l) == [l[0]] + Collapse(LowerAll(s[1..]));
        CollapseLower(s[1..]);
        LowerAllCons(s[0], Collapse(s[1..]));
      }
    }
  }

  lemma LowerAllIdempotent(s: string)
    ensures LowerAll(LowerAll(s)) == LowerAll(s)
  {
  }

  /** Answers that differ only in letter case normalise alike. */
  lemma NormalizeIgnoresCase(s: string)
    ensures Normalize(LowerAll(s)) == Normalize(s)
  {
    TrimLeftLower(s);
    TrimRightLower(TrimLeft(s));
    CollapseLower(Trim(s));
    LowerAllIdempotent(Collapse(Trim(s)));
  }

  // Normalisation ignores surrounding whitespace

  lemma {:induction false} TrimLeftSkips(a: string, x: string)
    requires AllSpace(a) && (x == [] || !IsSpace(x[0]))
    ensures TrimLeft(a + x) == x
    decreases |a|
  {
    if a == [] {
      assert a + x == x;
    } else {
      assert (a + x)[1..] == a[1..] + x;
      assert AllSpace(a[1..]) by {
        forall i | 0 <= i < |a| - 1 ensures IsSpace(a[1..][i]) {
          assert a[1..][i] == a[i + 1];
        }
      }
      TrimLeftSkips(a[1..], x);
    }
  }

  lemma {:induction false} TrimRightSkips(x: string, b: string)
    requires AllSpace(b) && (x == [] || !IsSpace(x[|x| - 1]))
    ensures TrimRight(x + b) == x
    decreases |b|
  {
    if b == [] {
      assert x + b == x;
    } else {
      var n := |b| - 1;
      assert (x + b)[..|x + b| - 1] == x + b[..n];
      assert AllSpace(b[..n]) by {
        forall i | 0 <= i < n ensures IsSpace(b[..n][i]) {
          assert b[..n][i] == b[i];
        }
      }
      TrimRightSkips(x, b[..n]);
    }
  }

  /** `strip()` of trimmed text between two runs of whitespace is that text. */
  lemma TrimBetweenSpace(a: string, m: string, b: string)
    requires AllSpace(a) && AllSpace(b) && Trimmed(m)
    ensures Trim(a + m + b) == m
  {
    if m == [] {
      assert a + m + b == a + b;
      assert AllSpace(a + b) by {
        forall i | 0 <= i < |a + b| ensures IsSpace((a + b)[i]) {
          if i < |a| { assert (a + b)[i] == a[i]; } else { assert (a + b)[i] == b[i - |a|]; }
        }
      }
      TrimLeftSkips(a + b, []);
      assert a + b + [] == a + b;
    } else {
      assert a + m + b == a + (m + b);
      TrimLeftSkips(a, m + b);
      TrimRightSkips(m, b);
    }
  }

  lemma SpaceAppend(a: string, b: string)
    requires AllSpace(a) && AllSpace(b)
    ensures AllSpace(a + b)
  {
    forall i | 0 <= i < |a + b| ensures IsSpace((a + b)[i]) {
      if i < |a| { assert (a + b)[i] == a[i]; } else { assert (a + b)[i] == b[i - |a|]; }
    }
  }

  /** `s` is its trimmed text between the whitespace `strip()` removed. */
  lemma TrimSplit(s: string) returns (a: string, b: string)
    ensures s == a + Trim(s) + b && AllSpace(a) && AllSpace(b)
  {
    var l := TrimLeft(s);
    a := s[..|s| - |l|];
    assert s == a + l by { SplitAt(s, |s| - |l|); }
    var m := TrimRight(l);
    b := l[|m|..];
    assert l == m + b by { SplitAt(l, |m|); }
    Associative(a, m, b);
  }

  lemma Associative(a: string, m: string, b: string)
    ensures a + (m + b) == a + m + b
  {
  }

  lemma SplitAt(s: string, k: nat)
    requires k <= |s|
    ensures s == s[..k] + s[k..]
  {
  }

  lemma Regroup(w1: string, a: string, m: string, b: string, w2: string)
    ensures w1 + (a + m + b) + w2 == (w1 + a) + m + (b + w2)
  {
  }

  lemma TrimIgnoresOuterSpace(w1: string, s: string, w2: string)
    requires AllSpace(w1) && AllSpace(w2)
    ensures Trim(w1 + s + w2) == Trim(s)
  {
    var a, b := TrimSplit(s);
    var m := Trim(s);
    Regroup(w1, a, m, b, w2);
    SpaceAppend(w1, a);
    SpaceAppend(b, w2);
    TrimBetweenSpace(w1 + a, m, b + w2);
  }

  /** Whitespace typed before or after an answer does not change its normal form. */
  lemma NormalizeIgnoresOuterSpace(w1: string, s: string, w2: string)
    requires AllSpace(w1) && AllSpace(w2)
    ensures Normalize(w1 + s + w2) == Normalize(s)
  {
    TrimIgnoresOuterSpace(w1, s, w2);
  }

  /** Strict lexicographic order on code points. */
  predicate LexLess(a: string, b: string)
    ensures LexLess(a, b) ==> a != b
    ensures |a| < |b| && a == b[..|a|] ==> LexLess(a, b)
    decreases |a|
  {
    if a == [] then b != []
    else if b == [] then false
    else if a[0] != b[0] then a[0] < b[0]
    else
      assert |a| < |b| && a == b[..|a|] ==> a[1..] == b[1..][..|a| - 1];
      LexLess(a[1..], b[1..])
  }

  /** `a` and `b` agree before position `k`, and `k` is where `a` ends first or holds the smaller character. */
  predicate DecidesAt(a: string, b: string, k: nat) {
    && k <= |a| && k < |b|
    && a[..k] == b[..k]
    && (k == |a| || a[k] < b[k])
  }

  /** The recursive order is the textbook one: the first difference, or the end of `a`, decides. */
  lemma {:induction false} LexLessMeans(a: string, b: string)
    ensures LexLess(a, b) <==> exists k: nat :: DecidesAt(a, b, k)
    decreases |a|
  {
    if a == [] || b == [] {
      if b != [] { assert DecidesAt(a, b, 0); }
    } else if a[0] != b[0] {
      if a[0] < b[0] { assert DecidesAt(a, b, 0); }
      forall k: nat | DecidesAt(a, b, k) ensures a[0] < b[0] {
        if k > 0 { assert a[..k][0] == b[..k][0]; }
      }
    } else {
      LexLessMeans(a[1..], b[1..]);
      if LexLess(a, b) {
        var k: nat :| DecidesAt(a[1..], b[1..], k);
        assert a[..k + 1] == [a[0]] + a[1..][..k] && b[..k + 1] == [b[0]] + b[1..][..k];
        assert DecidesAt(a, b, k + 1);
      }
      forall k: nat | DecidesAt(a, b, k) ensures LexLess(a[1..], b[1..]) {
        assert k > 0;
        assert a[1..][..k - 1] == a[..k][1..] && b[1..][..k - 1] == b[..k][1..];
        assert DecidesAt(a[1..], b[1..], k - 1);
      }
    }
  }

  lemma {:induction false} LexLessIrreflexive(a: string)
    ensures !LexLess(a, a)
    decreases |a|
  {
    if a != [] { LexLessIrreflexive(a[1..]); }
  }

  lemma {:induction false} LexLessTransitive(a: string, b: string, c: string)
    requires LexLess(a, b) && LexLess(b, c)
    ensures LexLess(a, c)
    decreases |a|
  {
    if a != [] && b != [] && c != [] && a[0] == b[0] == c[0] {
      LexLessTransitive(a[1..], b[1..], c[1..]);
    }
  }

  lemma {:induction false} LexLessTotal(a: string, b: string)
    ensures a == b || LexLess(a, b) || LexLess(b, a)
    decreases |a|
  {
    if a != [] && b != [] && a[0] == b[0] {
      LexLessTotal(a[1..], b[1..]);
      assert a == [a[0]] + a[1..] && b == [b[0]] + b[1..];
    }
  }

  lemma LexLessAsymmetric(a: string, b: string)
    requires LexLess(a, b)
    ensures !LexLess(b, a)
  {
    if LexLess(b, a) {
      LexLessTransitive(a, b, a);
      LexLessIrreflexive(a);
    }
  }

  /** "Not after" is transitive: the non-strict order derived from `LexLess`. */
  lemma LexLeqTransitive(a: string, b: string, c: string)
    requires !LexLess(b, a) && !LexLess(c, b)
    ensures !LexLess(c, a)
  {
    LexLessTotal(a, b);
    LexLessTotal(b, c);
    if a != b && b != c && LexLess(c, a) {
      LexLessTransitive(a, b, c);
      LexLessAsymmetric(a, c);
    }
  }
}
