/** Character-level text handling of the segmenter: the whitespace class used by
    Python's `\s` and `str.strip()`, the `\s+ -> ' '` collapse of the page text,
    stripping of a captured body, and decimal rendering of chunk numbers. */
module Text {

  /** Python's `str.isspace()` set, which is also what `\s` matches in a str pattern. */
  predicate IsSpace(c: char)
  {
    var n := c as int;
    (9 <= n <= 13) || (28 <= n <= 32) || n == 0x85 || n == 0xA0 || n == 0x1680
    || (0x2000 <= n <= 0x200A) || n == 0x2028 || n == 0x2029 || n == 0x202F
    || n == 0x205F || n == 0x3000
  }

  predicate AllSpace(s: string)
  {
    forall i :: 0 <= i < |s| ==> IsSpace(s[i])
  }

  /** The characters of `s` that are not whitespace, in order. */
  function NonSpace(s: string): string
  {
    if s == [] then []
    else (if IsSpace(s[0]) then [] else [s[0]]) + NonSpace(s[1..])
  }

  /** A collapsed text: its only whitespace is ' ' and no two whitespace characters touch. */
  predicate Collapsed(s: string)
  {
    && (forall i :: 0 <= i < |s| && IsSpace(s[i]) ==> s[i] == ' ')
    && (forall i :: 0 <= i < |s| - 1 ==> !IsSpace(s[i]) || !IsSpace(s[i + 1]))
  }

  /** Length of the whitespace run at the start of `s`. */
  function SpaceRun(s: string): (n: nat)
    ensures n <= |s|
    ensures AllSpace(s[..n])
    ensures n < |s| ==> !IsSpace(s[n])
  {
    if s == [] || !IsSpace(s[0]) then 0 else 1 + SpaceRun(s[1..])
  }

  /** `re.sub(r'\s+', ' ', s)`: every maximal whitespace run becomes one ' '. */
  function Collapse(s: string): (r: string)
    decreases |s|
    ensures |r| <= |s|
  {
    if s == [] then []
    else if IsSpace(s[0]) then [' '] + Collapse(s[SpaceRun(s)..])
    else [s[0]] + Collapse(s[1..])
  }

  /** The collapse starts with whitespace exactly when its input does. */
  lemma CollapseHead(s: string)
    ensures (|Collapse(s)| > 0 && IsSpace(Collapse(s)[0])) <==> (|s| > 0 && IsSpace(s[0]))
  {
    if s != [] && !IsSpace(s[0]) {
      assert Collapse(s)[0] == s[0];
    }
  }

  /** After the collapse the only whitespace left is ' ', and no two whitespace
      characters are adjacent. */
  lemma {:induction false} CollapseNormalizes(s: string)
    ensures Collapsed(Collapse(s))
    decreases |s|
  {
    if s != [] {
      if IsSpace(s[0]) {
        var k := SpaceRun(s);
        CollapseNormalizes(s[k..]);
        var t := Collapse(s[k..]);
        CollapseHead(s[k..]);
        assert Collapse(s) == [' '] + t;
        assert t != [] ==> !IsSpace(t[0]);
      } else {
        CollapseNormalizes(s[1..]);
        assert Collapse(s) == [s[0]] + Collapse(s[1..]);
      }
    }
  }

  lemma {:induction false} SpaceRunOfRun(w: string, v: string)
    requires AllSpace(w)
    requires v == [] || !IsSpace(v[0])
    ensures SpaceRun(w + v) == |w|
  {
    if w != [] {
      assert (w + v)[1..] == w[1..] + v;
      SpaceRunOfRun(w[1..], v);
    } else {
      assert w + v == v;
    }
  }

  lemma {:induction false} SpaceRunOfPrefix(u: string, t: string)
    requires SpaceRun(u) < |u|
    ensures SpaceRun(u + t) == SpaceRun(u)
  {
    if IsSpace(u[0]) {
      assert (u + t)[1..] == u[1..] + t;
      SpaceRunOfPrefix(u[1..], t);
    }
  }

  /** The collapse replaces one maximal whitespace run `w` (not touched by other
      whitespace on either side) by exactly one ' ' and handles both sides independently. */
  lemma CollapseRun(u: string, w: string, v: string)
    requires w != [] && AllSpace(w)
    requires u == [] || !IsSpace(u[|u| - 1])
    requires v == [] || !IsSpace(v[0])
    ensures Collapse(u + w + v) == Collapse(u) + [' '] + Collapse(v)
  {
    SpaceRunOfRun(w, []);
    assert w + [] == w;
    CollapseRunOf(u, w, v);
  }

  lemma {:induction false} CollapseRunOf(u: string, w: string, v: string)
    requires w != [] && SpaceRun(w) == |w|
    requires u == [] || !IsSpace(u[|u| - 1])
    requires v == [] || !IsSpace(v[0])
    ensures Collapse(u + w + v) == Collapse(u) + [' '] + Collapse(v)
    decreases |u|, 1
  {
    if u == [] {
      CollapseRunNoPrefix(u, w, v);
    } else if !IsSpace(u[0]) {
      CollapseRunAfterText(u, w, v);
    } else {
      CollapseRunAfterSpace(u, w, v);
    }
  }

  lemma CollapseRunNoPrefix(u: string, w: string, v: string)
    requires u == [] && w != [] && SpaceRun(w) == |w|
    requires v == [] || !IsSpace(v[0])
    ensures Collapse(u + w + v) == Collapse(u) + [' '] + Collapse(v)
  {
    var c := Collapse(v);
    assert u + w + v == w + v;
    assert Collapse(w + v) == [' '] + c by {
      CollapseRunAtStart(w, v);
    }
    assert Collapse(u) + [' '] + c == [' '] + c by {
      assert Collapse(u) == [];
      EmptyHead(c);
    }
  }

  lemma {:induction false} CollapseRunAfterText(u: string, w: string, v: string)
    requires w != [] && SpaceRun(w) == |w|
    requires u != [] && !IsSpace(u[0]) && !IsSpace(u[|u| - 1])
    requires v == [] || !IsSpace(v[0])
    ensures Collapse(u + w + v) == Collapse(u) + [' '] + Collapse(v)
    decreases |u|, 0
  {
    var u1 := u[1..];
    assert u1 == [] || u1[|u1| - 1] == u[|u| - 1];
    CollapseRunOf(u1, w, v);
    CollapseTextHead(u, w + v);
    ConcatAssoc(u, w, v);
    ConcatAssoc(u1, w, v);
    RegroupHead([u[0]], Collapse(u1), Collapse(v));
  }

  lemma {:induction false} CollapseRunAfterSpace(u: string, w: string, v: string)
    requires w != [] && SpaceRun(w) == |w|
    requires u != [] && IsSpace(u[0]) && !IsSpace(u[|u| - 1])
    requires v == [] || !IsSpace(v[0])
    ensures Collapse(u + w + v) == Collapse(u) + [' '] + Collapse(v)
    decreases |u|, 0
  {
    var k := SpaceRun(u);
    SpaceRunStopsAtText(u);
    var u1 := u[k..];
    assert u1[|u1| - 1] == u[|u| - 1];
    CollapseRunOf(u1, w, v);
    CollapseSpaceHead(u, w + v);
    ConcatAssoc(u, w, v);
    ConcatAssoc(u1, w, v);
    RegroupHead([' '], Collapse(u1), Collapse(v));
  }

  lemma {:induction false} SpaceRunStopsAtText(u: string)
    requires u != [] && !IsSpace(u[|u| - 1])
    ensures SpaceRun(u) < |u|
  {
    if IsSpace(u[0]) {
      assert u[1..][|u| - 2] == u[|u| - 1];
      SpaceRunStopsAtText(u[1..]);
    }
  }

  /** Regrouping steps, kept as lemmas so that the sequence identities stay out
      of the solver's context in the proofs that use them. */
  lemma EmptyHead(b: string)
    ensures [] + [' '] + b == [' '] + b
  {
  }

  lemma RegroupHead(h: string, a: string, b: string)
    ensures h + (a + [' '] + b) == h + a + [' '] + b
  {
  }

  lemma ConcatAssoc(a: string, b: string, c: string)
    ensures a + b + c == a + (b + c)
  {
  }

  lemma CollapseTextHead(u: string, t: string)
    requires u != [] && !IsSpace(u[0])
    ensures Collapse(u + t) == [u[0]] + Collapse(u[1..] + t)
    ensures Collapse(u) == [u[0]] + Collapse(u[1..])
  {
    assert (u + t)[1..] == u[1..] + t;
  }

  lemma CollapseSpaceHead(u: string, t: string)
    requires SpaceRun(u) < |u| && IsSpace(u[0])
    ensures Collapse(u + t) == [' '] + Collapse(u[SpaceRun(u)..] + t)
    ensures Collapse(u) == [' '] + Collapse(u[SpaceRun(u)..])
  {
    SpaceRunOfPrefix(u, t);
    assert (u + t)[SpaceRun(u)..] == u[SpaceRun(u)..] + t;
  }

  lemma CollapseRunAtStart(w: string, v: string)
    requires w != [] && SpaceRun(w) == |w|
    requires v == [] || !IsSpace(v[0])
    ensures Collapse(w + v) == [' '] + Collapse(v)
  {
    assert AllSpace(w[..|w|]);
    assert w[..|w|] == w;
    SpaceRunOfRun(w, v);
    assert (w + v)[|w|..] == v;
  }

  /** The collapse keeps every non-whitespace character, in order. */
  lemma {:induction false} CollapseKeepsText(s: string)
    ensures NonSpace(Collapse(s)) == NonSpace(s)
    decreases |s|
  {
    if s == [] {
    } else if IsSpace(s[0]) {
      var k := SpaceRun(s);
      NonSpaceOfRun(s[..k], s[k..]);
      assert s == s[..k] + s[k..];
      CollapseKeepsText(s[k..]);
      assert ([' '] + Collapse(s[k..]))[1..] == Collapse(s[k..]);
    } else {
      assert ([s[0]] + Collapse(s[1..]))[1..] == Collapse(s[1..]);
      CollapseKeepsText(s[1..]);
    }
  }

  lemma {:induction false} NonSpaceOfRun(w: string, v: string)
    requires AllSpace(w)
    ensures NonSpace(w + v) == NonSpace(v)
  {
    if w != [] {
      assert (w + v)[1..] == w[1..] + v;
      NonSpaceOfRun(w[1..], v);
    } else {
      assert w + v == v;
    }
  }

  /** A collapsed text is left as it is, so collapsing twice is collapsing once. */
  lemma {:induction false} CollapseFixesCollapsed(s: string)
    requires Collapsed(s)
    ensures Collapse(s) == s
    decreases |s|
  {
    if s != [] {
      assert Collapsed(s[1..]);
      if IsSpace(s[0]) {
        assert |s| > 1 ==> !IsSpace(s[1]);
        assert SpaceRun(s) == 1 by { SpaceRunOfRun(s[..1], s[1..]); assert s[..1] + s[1..] == s; }
        CollapseFixesCollapsed(s[1..]);
      } else {
        CollapseFixesCollapsed(s[1..]);
      }
    }
  }

  lemma CollapseIdempotent(s: string)
    ensures Collapse(Collapse(s)) == Collapse(s)
  {
    CollapseNormalizes(s);
    CollapseFixesCollapsed(Collapse(s));
  }

  /** `s.lstrip()`. */
  function TrimStart(s: string): (r: string)
    ensures |r| <= |s|
  {
    if s != [] && IsSpace(s[0]) then TrimStart(s[1..]) else s
  }

  /** `s.rstrip()`. */
  function TrimEnd(s: string): (r: string)
    ensures |r| <= |s|
  {
    if s != [] && IsSpace(s[|s| - 1]) then TrimEnd(s[..|s| - 1]) else s
  }

  /** `s.strip()`. */
  function Strip(s: string): (r: string)
    ensures |r| <= |s|
  {
    TrimEnd(TrimStart(s))
  }

  /** `lstrip` removes exactly the leading whitespace run. */
  lemma {:induction false} TrimStartSpec(s: string)
    ensures var r := TrimStart(s);
      && r == s[|s| - |r|..]
      && AllSpace(s[..|s| - |r|])
      && (r == [] || !IsSpace(r[0]))
  {
    if s != [] && IsSpace(s[0]) {
      TrimStartSpec(s[1..]);
      var r := TrimStart(s);
      assert s[..|s| - |r|] == [s[0]] + s[1..][..|s| - 1 - |r|];
    }
  }

  /** `rstrip` removes exactly the trailing whitespace run. */
  lemma {:induction false} TrimEndSpec(s: string)
    ensures var r := TrimEnd(s);
      && r == s[..|r|]
      && AllSpace(s[|r|..])
      && (r == [] || !IsSpace(r[|r| - 1]))
  {
    if s != [] && IsSpace(s[|s| - 1]) {
      TrimEndSpec(s[..|s| - 1]);
      var r := TrimEnd(s);
      assert s[|r|..] == s[..|s| - 1][|r|..] + [s[|s| - 1]];
    }
  }

  /** `strip` leaves the part of `s` between its leading and its trailing
      whitespace: an infix of `s`, flanked only by whitespace, that neither
      starts nor ends with whitespace. */
  lemma StripSpec(s: string)
    ensures var r := Strip(s);
      var k := |s| - |TrimStart(s)|;
      && k + |r| <= |s|
      && r == s[k..k + |r|]
      && AllSpace(s[..k]) && AllSpace(s[k + |r|..])
      && (r == [] || (!IsSpace(r[0]) && !IsSpace(r[|r| - 1])))
  {
    var t := TrimStart(s);
    TrimStartSpec(s);
    TrimEndSpec(t);
    var r := TrimEnd(t);
    var k := |s| - |t|;
    assert t[|r|..] == s[k + |r|..];
    assert t == s[k..];
    assert r == t[..|r|] == s[k..][..|r|] == s[k..k + |r|];
    if r != [] {
      assert r[0] == t[0];
    }
  }

  /** A body that neither starts nor ends with whitespace is its own strip. */
  lemma StripTrimmed(s: string)
    requires s == [] || (!IsSpace(s[0]) && !IsSpace(s[|s| - 1]))
    ensures Strip(s) == s
  {
  }

  function DigitChar(d: nat): (c: char)
    requires d < 10
    ensures '0' <= c <= '9'
  {
    (48 + d) as char
  }

  /** `f"{n}"` / `str(n)` for a non-negative integer. */
  function NatToString(n: nat): (r: string)
    ensures |r| >= 1
    ensures forall i :: 0 <= i < |r| ==> '0' <= r[i] <= '9'
    ensures (|r| == 1) == (n < 10)
    ensures n > 0 ==> r[0] != '0'
  {
    if n < 10 then [DigitChar(n)] else NatToString(n / 10) + [DigitChar(n % 10)]
  }

  /** Distinct numbers have distinct decimal renderings. */
  lemma {:induction false} NatToStringInjective(a: nat, b: nat)
    requires NatToString(a) == NatToString(b)
    ensures a == b
  {
    if a >= 10 && b >= 10 {
      var sa, sb := NatToString(a), NatToString(b);
      assert sa[|sa| - 1] == sb[|sb| - 1];
      assert a % 10 == b % 10;
      assert sa[..|sa| - 1] == NatToString(a / 10);
      assert sb[..|sb| - 1] == NatToString(b / 10);
      NatToStringInjective(a / 10, b / 10);
    }
  }

  /** A common prefix cancels: `p + x == p + y` only when `x == y`. */
  lemma PrefixCancel(p: string, x: string, y: string)
    requires p + x == p + y
    ensures x == y
  {
    assert x == (p + x)[|p|..];
    assert y == (p + y)[|p|..];
  }
}
