/**
  The statement normalizer of query.go: `stripQuery` replaces every maximal run
  of RE2 whitespace by one space (the regular expression `\s+`) and then trims
  Unicode whitespace from both ends (`strings.TrimSpace`).
*/
module Strip {

  /** The characters of RE2's `\s`: space, tab, line feed, form feed and carriage return. */
  predicate IsSpace(c: char)
  {
    c == ' ' || c == '\t' || c == '\n' || c == '\U{000C}' || c == '\r'
  }

  /**
    The characters `strings.TrimSpace` trims (`unicode.IsSpace`): those of `\s`,
    vertical tab, next line, no-break space and the other Unicode White_Space
    characters.
  */
  predicate IsTrimSpace(c: char)
  {
    || IsSpace(c) || c == '\U{000B}' || c == '\U{0085}' || c == '\U{00A0}' || c == '\U{1680}'
    || ('\U{2000}' <= c <= '\U{200A}')
    || c == '\U{2028}' || c == '\U{2029}' || c == '\U{202F}' || c == '\U{205F}' || c == '\U{3000}'
  }

  predicate AllSpace(s: string)
  {
    forall i :: 0 <= i < |s| ==> IsSpace(s[i])
  }

  predicate AllTrimSpace(s: string)
  {
    forall i :: 0 <= i < |s| ==> IsTrimSpace(s[i])
  }

  /** Drops the leading run of `\s` whitespace. */
  function SkipSpace(s: string): (r: string)
    ensures |r| <= |s| && r == s[|s| - |r|..]
    ensures forall i :: 0 <= i < |s| - |r| ==> IsSpace(s[i])
    ensures r == [] || !IsSpace(r[0])
  {
    if s != [] && IsSpace(s[0]) then
      var r := SkipSpace(s[1..]);
      assert s[1..][|s[1..]| - |r|..] == s[|s| - |r|..];
      r
    else
      s
  }

  /** Drops the leading run of Unicode whitespace. */
  function TrimLeft(s: string): (r: string)
    ensures |r| <= |s| && r == s[|s| - |r|..]
    ensures forall i :: 0 <= i < |s| - |r| ==> IsTrimSpace(s[i])
    ensures r == [] || !IsTrimSpace(r[0])
  {
    if s != [] && IsTrimSpace(s[0]) then
      var r := TrimLeft(s[1..]);
      assert s[1..][|s[1..]| - |r|..] == s[|s| - |r|..];
      r
    else
      s
  }

  /** Drops the trailing run of Unicode whitespace. */
  function TrimRight(s: string): (r: string)
    ensures |r| <= |s| && r == s[..|r|]
    ensures forall i :: |r| <= i < |s| ==> IsTrimSpace(s[i])
    ensures r == [] || !IsTrimSpace(r[|r| - 1])
  {
    if s != [] && IsTrimSpace(s[|s| - 1]) then
      var r := TrimRight(s[..|s| - 1]);
      assert s[..|s| - 1][..|r|] == s[..|r|];
      r
    else
      s
  }

  /** `strings.TrimSpace`: the result is no longer than the input and has no whitespace at either end. */
  function TrimSpace(s: string): (r: string)
    ensures |r| <= |s|
    ensures r == [] || (!IsTrimSpace(r[0]) && !IsTrimSpace(r[|r| - 1]))
  {
    var u := TrimLeft(s);
    var r := TrimRight(u);
    assert r != [] ==> r[0] == u[0];
    r
  }

  /**
    `re.ReplaceAllString(q, " ")` for `re` = `\s+`: never longer than its input,
    empty only for an empty input, and starting with whitespace exactly when the
    input does.
  */
  function Collapse(s: string): (r: string)
    ensures |r| <= |s|
    ensures r == [] <==> s == []
    ensures s != [] ==> (IsSpace(r[0]) <==> IsSpace(s[0]))
    decreases |s|
  {
    if s == [] then []
    else if IsSpace(s[0]) then " " + Collapse(SkipSpace(s[1..]))
    else [s[0]] + Collapse(s[1..])
  }

  /** `stripQuery`: never longer than the statement, and with no whitespace at either end. */
  function StripQuery(q: string): (r: string)
    ensures |r| <= |q|
    ensures r == [] || (!IsTrimSpace(r[0]) && !IsTrimSpace(r[|r| - 1]))
  {
    TrimSpace(Collapse(q))
  }

  /** The only whitespace is a plain space, and no two whitespace characters are adjacent. */
  predicate SingleSpaced(s: string)
  {
    && (forall i :: 0 <= i < |s| && IsSpace(s[i]) ==> s[i] == ' ')
    && (forall i :: 0 <= i < |s| - 1 ==> !(IsSpace(s[i]) && IsSpace(s[i + 1])))
  }

  /** The canonical form: single-spaced, with no Unicode whitespace at either end. */
  predicate Canonical(s: string)
  {
    SingleSpaced(s) && (s == [] || (!IsTrimSpace(s[0]) && !IsTrimSpace(s[|s| - 1])))
  }

  /** The characters of `s` that are not Unicode whitespace, in order. */
  function NonSpace(s: string): string
  {
    if s == [] then []
    else (if IsTrimSpace(s[0]) then [] else [s[0]]) + NonSpace(s[1..])
  }

  lemma {:induction false} NonSpaceAppend(a: string, b: string)
    ensures NonSpace(a + b) == NonSpace(a) + NonSpace(b)
  {
    if a == [] {
      assert a + b == b;
    } else {
      var h := if IsTrimSpace(a[0]) then [] else [a[0]];
      assert (a + b)[0] == a[0] && (a + b)[1..] == a[1..] + b;
      assert NonSpace(a + b) == h + NonSpace(a[1..] + b);
      NonSpaceAppend(a[1..], b);
      assert NonSpace(a) == h + NonSpace(a[1..]);
    }
  }

  lemma {:induction false} NonSpaceOfAllSpace(s: string)
    requires AllTrimSpace(s)
    ensures NonSpace(s) == []
  {
    if s != [] {
      NonSpaceOfAllSpace(s[1..]);
    }
  }

  /** Collapsing leaves only single plain spaces. */
  lemma {:induction false} CollapseSingleSpaced(s: string)
    ensures SingleSpaced(Collapse(s))
    decreases |s|
  {
    if s != [] {
      if IsSpace(s[0]) {
        var t := SkipSpace(s[1..]);
        CollapseSingleSpaced(t);
        assert Collapse(s) == " " + Collapse(t);
      } else {
        CollapseSingleSpaced(s[1..]);
        assert Collapse(s) == [s[0]] + Collapse(s[1..]);
      }
    }
  }

  /** Collapsing drops whitespace only. */
  lemma {:induction false} CollapseNonSpace(s: string)
    ensures NonSpace(Collapse(s)) == NonSpace(s)
    decreases |s|
  {
    if s != [] {
      if IsSpace(s[0]) {
        var t := SkipSpace(s[1..]);
        CollapseNonSpace(t);
        NonSpaceAppend(" ", Collapse(t));
        var k := |s[1..]| - |t|;
        assert s[1..] == s[1..][..k] + t;
        NonSpaceAppend(s[1..][..k], t);
        assert AllTrimSpace(s[1..][..k]) by {
          assert AllSpace(s[1..][..k]);
        }
        NonSpaceOfAllSpace(s[1..][..k]);
      } else {
        CollapseNonSpace(s[1..]);
        NonSpaceAppend([s[0]], Collapse(s[1..]));
      }
    }
  }

  /** Trimming cuts a whitespace prefix and a whitespace suffix off its input. */
  lemma TrimSpaceInfix(s: string) returns (lo: nat, hi: nat)
    ensures lo <= hi <= |s| && TrimSpace(s) == s[lo..hi]
    ensures AllTrimSpace(s[..lo]) && AllTrimSpace(s[hi..])
  {
    var u := TrimLeft(s);
    lo := |s| - |u|;
    assert u == s[lo..];
    var r := TrimRight(u);
    hi := lo + |r|;
    assert r == s[lo..hi] by {
      assert r == u[..|r|];
    }
    assert AllTrimSpace(s[hi..]) by {
      assert s[hi..] == u[|r|..];
    }
  }

  lemma SingleSpacedInfix(s: string, lo: nat, hi: nat)
    requires lo <= hi <= |s| && SingleSpaced(s)
    ensures SingleSpaced(s[lo..hi])
  {
    var r := s[lo..hi];
    assert forall i :: 0 <= i < |r| ==> r[i] == s[lo + i];
  }

  /** stripQuery yields the canonical form. */
  lemma StripQueryCanonical(q: string)
    ensures Canonical(StripQuery(q))
  {
    var c := Collapse(q);
    CollapseSingleSpaced(q);
    var lo, hi := TrimSpaceInfix(c);
    SingleSpacedInfix(c, lo, hi);
  }

  lemma NonSpaceBetweenSpace(pre: string, mid: string, suf: string)
    requires AllTrimSpace(pre) && AllTrimSpace(suf)
    ensures NonSpace(pre + (mid + suf)) == NonSpace(mid)
  {
    NonSpaceAppend(pre, mid + suf);
    NonSpaceAppend(mid, suf);
    NonSpaceOfAllSpace(pre);
    NonSpaceOfAllSpace(suf);
  }

  lemma NonSpaceInfix(c: string, lo: nat, hi: nat)
    requires lo <= hi <= |c| && AllTrimSpace(c[..lo]) && AllTrimSpace(c[hi..])
    ensures NonSpace(c[lo..hi]) == NonSpace(c)
  {
    var pre, mid, suf := c[..lo], c[lo..hi], c[hi..];
    assert c[lo..] == mid + suf;
    assert c == pre + c[lo..];
    NonSpaceBetweenSpace(pre, mid, suf);
  }

  /** Trimming drops Unicode whitespace only. */
  lemma TrimSpaceNonSpace(c: string)
    ensures NonSpace(TrimSpace(c)) == NonSpace(c)
  {
    var lo, hi := TrimSpaceInfix(c);
    NonSpaceInfix(c, lo, hi);
  }

  /** stripQuery keeps exactly the characters that are not Unicode whitespace, in their original order. */
  lemma StripQueryNonSpace(q: string)
    ensures NonSpace(StripQuery(q)) == NonSpace(q)
  {
    CollapseNonSpace(q);
    TrimSpaceNonSpace(Collapse(q));
  }

  lemma {:induction false} CollapseOfSingleSpaced(s: string)
    requires SingleSpaced(s)
    ensures Collapse(s) == s
    decreases |s|
  {
    if s != [] {
      assert SingleSpaced(s[1..]);
      if IsSpace(s[0]) {
        assert s[1..] == [] || !IsSpace(s[1]);
        assert SkipSpace(s[1..]) == s[1..];
      }
      CollapseOfSingleSpaced(s[1..]);
    }
  }

  /** A canonical string is left unchanged. */
  lemma StripQueryOfCanonical(s: string)
    requires Canonical(s)
    ensures StripQuery(s) == s
  {
    CollapseOfSingleSpaced(s);
  }

  /** stripQuery is idempotent. */
  lemma StripQueryIdempotent(q: string)
    ensures StripQuery(StripQuery(q)) == StripQuery(q)
  {
    StripQueryCanonical(q);
    StripQueryOfCanonical(StripQuery(q));
  }

  lemma {:induction false} SkipSpaceAppend(x: string, y: string)
    ensures AllSpace(x) ==> SkipSpace(x + y) == SkipSpace(y)
    ensures !AllSpace(x) ==> SkipSpace(x + y) == SkipSpace(x) + y
  {
    if x == [] {
      assert x + y == y;
    } else {
      assert (x + y)[0] == x[0] && (x + y)[1..] == x[1..] + y;
      if IsSpace(x[0]) {
        assert AllSpace(x) <==> AllSpace(x[1..]);
        SkipSpaceAppend(x[1..], y);
      } else {
        assert !AllSpace(x);
      }
    }
  }

  /** A leading non-empty run of whitespace becomes one space. */
  lemma CollapseLeadingRun(w: string, b: string)
    requires w != [] && AllSpace(w)
    ensures Collapse(w + b) == " " + Collapse(SkipSpace(b))
  {
    assert (w + b)[0] == w[0] && (w + b)[1..] == w[1..] + b;
    SkipSpaceAppend(w[1..], b);
  }

  /** Any non-empty run of whitespace collapses like a single space. */
  lemma {:induction false} CollapseRun(a: string, w: string, b: string)
    requires w != [] && AllSpace(w)
    ensures Collapse(a + (w + b)) == Collapse(a + (" " + b))
    decreases |a|
  {
    if a == [] {
      assert a + (w + b) == w + b && a + (" " + b) == " " + b;
      CollapseLeadingRun(w, b);
      CollapseLeadingRun(" ", b);
    } else if AllSpace(a) {
      assert a + (w + b) == (a + w) + b && a + (" " + b) == (a + " ") + b;
      assert AllSpace(a + w) && AllSpace(a + " ");
      CollapseLeadingRun(a + w, b);
      CollapseLeadingRun(a + " ", b);
    } else if IsSpace(a[0]) {
      var a' := a[1..];
      var t := SkipSpace(a');
      assert !AllSpace(a');
      CollapseRunAfterSpace(a, w, b);
      CollapseRunAfterSpace(a, " ", b);
      CollapseRun(t, w, b);
    } else {
      CollapseRunAfterChar(a, w, b);
      CollapseRunAfterChar(a, " ", b);
      CollapseRun(a[1..], w, b);
    }
  }

  lemma CollapseRunAfterSpace(a: string, w: string, b: string)
    requires a != [] && IsSpace(a[0]) && !AllSpace(a[1..])
    ensures Collapse(a + (w + b)) == " " + Collapse(SkipSpace(a[1..]) + (w + b))
  {
    assert (a + (w + b))[0] == a[0] && (a + (w + b))[1..] == a[1..] + (w + b);
    SkipSpaceAppend(a[1..], w + b);
  }

  lemma CollapseRunAfterChar(a: string, w: string, b: string)
    requires a != [] && !IsSpace(a[0])
    ensures Collapse(a + (w + b)) == [a[0]] + Collapse(a[1..] + (w + b))
  {
    assert (a + (w + b))[0] == a[0] && (a + (w + b))[1..] == a[1..] + (w + b);
  }

  /** Statements that differ only in the layout of one run of whitespace strip to the same text. */
  lemma StripQueryIgnoresLayout(a: string, w: string, w': string, b: string)
    requires w != [] && AllSpace(w) && w' != [] && AllSpace(w')
    ensures StripQuery(a + w + b) == StripQuery(a + w' + b)
  {
    CollapseRun(a, w, b);
    CollapseRun(a, w', b);
    assert a + w + b == a + (w + b) && a + w' + b == a + (w' + b);
  }
}
