/**
  The parts of Python's `str` API that the status translator relies on:
  `str.split(sep)` with a one-character separator, its inverse `sep.join`,
  and `str.strip(chars)` / `str.strip()`.
 */
module PyStr {

  /** Number of occurrences of `c` in `s`. */
  function Count(s: string, c: char): (n: nat)
    ensures n <= |s|
  {
    if s == [] then 0 else (if s[0] == c then 1 else 0) + Count(s[1..], c)
  }

  /** `sep.join(fields)`: the fields with one `sep` between neighbours. */
  function Join(fields: seq<string>, sep: char): string
  {
    if |fields| == 0 then ""
    else if |fields| == 1 then fields[0]
    else fields[0] + ([sep] + Join(fields[1..], sep))
  }

  /**
    `s.split(sep)`: the maximal runs between separators, empty runs kept,
    so there is always one field more than there are separators and
    `"a\n"` gives `["a", ""]`.
   */
  function Split(s: string, sep: char): (r: seq<string>)
    ensures |r| == Count(s, sep) + 1
  {
    if s == [] then [""]
    else
      var rest := Split(s[1..], sep);
      if s[0] == sep then [""] + rest
      else [[s[0]] + rest[0]] + rest[1..]
  }

  /** No field that Split returns contains the separator. */
  lemma {:induction false} SplitFieldsFree(s: string, sep: char)
    ensures forall i :: 0 <= i < |Split(s, sep)| ==> sep !in Split(s, sep)[i]
  {
    if s != [] {
      SplitFieldsFree(s[1..], sep);
      var rest := Split(s[1..], sep);
      if s[0] != sep {
        assert sep !in [s[0]] + rest[0];
      }
    }
  }

  /** Join of a field in front of at least one more. */
  lemma JoinCons(f: string, fs: seq<string>, sep: char)
    requires |fs| >= 1
    ensures Join([f] + fs, sep) == f + ([sep] + Join(fs, sep))
  {
    assert ([f] + fs)[1..] == fs;
  }

  /** Splitting and joining again on the same separator gives back the text. */
  lemma {:induction false} JoinSplit(s: string, sep: char)
    ensures Join(Split(s, sep), sep) == s
  {
    if s != [] {
      var rest := Split(s[1..], sep);
      JoinSplit(s[1..], sep);
      assert s == [s[0]] + s[1..];
      if s[0] == sep {
        JoinCons("", rest, sep);
      } else {
        var r := Split(s, sep);
        assert r == [[s[0]] + rest[0]] + rest[1..];
        if |rest| > 1 {
          JoinCons([s[0]] + rest[0], rest[1..], sep);
          JoinCons(rest[0], rest[1..], sep);
          assert rest == [rest[0]] + rest[1..];
        }
      }
    }
  }

  /** A field free of separators glues onto the first field of what follows it. */
  lemma {:induction false} SplitPrepend(f: string, t: string, sep: char)
    requires sep !in f
    ensures Split(f + t, sep) == [f + Split(t, sep)[0]] + Split(t, sep)[1..]
  {
    var st := Split(t, sep);
    if f != [] {
      var s := f + t;
      assert s[0] == f[0] && s[0] != sep;
      assert s[1..] == f[1..] + t;
      SplitPrepend(f[1..], t, sep);
      var rest := Split(s[1..], sep);
      assert rest == [f[1..] + st[0]] + st[1..];
      assert Split(s, sep) == [[s[0]] + rest[0]] + rest[1..];
      assert rest[1..] == st[1..];
      assert [f[0]] + (f[1..] + st[0]) == f + st[0];
    } else {
      assert f + t == t;
      assert f + st[0] == st[0];
      assert st == [st[0]] + st[1..];
    }
  }

  /** A separator-free field followed by a separator splits off as its own field. */
  lemma SplitField(f: string, t: string, sep: char)
    requires sep !in f
    ensures Split(f + ([sep] + t), sep) == [f] + Split(t, sep)
  {
    SplitPrepend(f, [sep] + t, sep);
    assert ([sep] + t)[1..] == t;
    assert f + "" == f;
  }

  /** Two separator-free leading fields split off ahead of the rest. */
  lemma SplitTwoFields(f0: string, f1: string, t: string, sep: char)
    requires sep !in f0 && sep !in f1
    ensures Split(f0 + ([sep] + (f1 + ([sep] + t))), sep) == [f0] + ([f1] + Split(t, sep))
  {
    SplitField(f1, t, sep);
    SplitField(f0, f1 + ([sep] + t), sep);
  }

  /** A separator-free text is a single field. */
  lemma SplitNone(f: string, sep: char)
    requires sep !in f
    ensures Split(f, sep) == [f]
  {
    SplitPrepend(f, "", sep);
    assert f + "" == f;
  }

  /** Empty fields are kept: a trailing separator ends in an empty field. */
  lemma SplitKeepsEmpty()
    ensures Split("a\n", '\n') == ["a", ""]
  {
    SplitField("a", "", '\n');
    assert "a" + ("\n" + "") == "a\n";
  }

  /** Joining separator-free fields and splitting again gives back the fields. */
  lemma {:induction false} SplitJoin(fields: seq<string>, sep: char)
    requires |fields| >= 1
    requires forall i :: 0 <= i < |fields| ==> sep !in fields[i]
    ensures Split(Join(fields, sep), sep) == fields
  {
    if |fields| == 1 {
      SplitPrepend(fields[0], "", sep);
      assert fields[0] + "" == fields[0];
    } else {
      SplitJoin(fields[1..], sep);
      SplitField(fields[0], Join(fields[1..], sep), sep);
      assert fields == [fields[0]] + fields[1..];
    }
  }

  /** Length of the longest prefix of `s` made only of characters in `cs`. */
  function LeadLen(s: string, cs: set<char>): (n: nat)
    ensures n <= |s|
    ensures forall k :: 0 <= k < n ==> s[k] in cs
    ensures n < |s| ==> s[n] !in cs
  {
    if s == [] || s[0] !in cs then 0 else 1 + LeadLen(s[1..], cs)
  }

  /** Length of the longest suffix of `s` made only of characters in `cs`. */
  function TrailLen(s: string, cs: set<char>): (n: nat)
    ensures n <= |s|
    ensures forall k :: |s| - n <= k < |s| ==> s[k] in cs
    ensures n < |s| ==> s[|s| - 1 - n] !in cs
  {
    if s == [] || s[|s| - 1] !in cs then 0 else 1 + TrailLen(s[..|s| - 1], cs)
  }

  /**
    `s.strip(chars)` with `chars` given as the set `cs`: the infix of `s`
    left after removing every leading and every trailing character in `cs`.
   */
  function Strip(s: string, cs: set<char>): (r: string)
    ensures |r| <= |s|
    ensures r != [] ==> r[0] !in cs && r[|r| - 1] !in cs
  {
    var t := s[LeadLen(s, cs)..];
    t[..|t| - TrailLen(t, cs)]
  }

  /**
    What Strip removes and keeps: the result starts right after the leading
    run of `cs` characters, everything after it is in `cs`, and it neither
    starts nor ends with a character of `cs`.
   */
  lemma StripSpec(s: string, cs: set<char>)
    ensures LeadLen(s, cs) + |Strip(s, cs)| <= |s|
    ensures Strip(s, cs) == s[LeadLen(s, cs)..LeadLen(s, cs) + |Strip(s, cs)|]
    ensures forall k :: LeadLen(s, cs) + |Strip(s, cs)| <= k < |s| ==> s[k] in cs
    ensures Strip(s, cs) != [] ==> Strip(s, cs)[0] !in cs && Strip(s, cs)[|Strip(s, cs)| - 1] !in cs
  {
    var i := LeadLen(s, cs);
    var t := s[i..];
    var m := TrailLen(t, cs);
    var r := Strip(s, cs);
    assert r == t[..|t| - m];
    assert |r| == |s| - i - m;
    assert r == s[i..i + |r|];
    forall k | i + |r| <= k < |s| ensures s[k] in cs {
      assert s[k] == t[k - i];
    }
    if r != [] {
      assert r[0] == s[i];
      assert r[|r| - 1] == t[|t| - 1 - m];
    }
  }

  /**
    Strip is determined by its contract: whenever `s` is a run of `cs`
    characters, a core that does not start or end with one, and another run,
    stripping gives exactly that core.
   */
  lemma StripExact(pre: string, core: string, suf: string, cs: set<char>)
    requires forall k :: 0 <= k < |pre| ==> pre[k] in cs
    requires forall k :: 0 <= k < |suf| ==> suf[k] in cs
    requires core != [] ==> core[0] !in cs && core[|core| - 1] !in cs
    ensures Strip(pre + core + suf, cs) == core
  {
    var s := pre + core + suf;
    var i := LeadLen(s, cs);
    var r := Strip(s, cs);
    StripSpec(s, cs);
    var e := |pre| + |core|;
    assert forall k :: 0 <= k < |pre| ==> s[k] in cs by {
      forall k | 0 <= k < |pre| ensures s[k] in cs { assert s[k] == pre[k]; }
    }
    assert forall k :: e <= k < |s| ==> s[k] in cs by {
      forall k | e <= k < |s| ensures s[k] in cs { assert s[k] == suf[k - e]; }
    }
    if core == [] {
      assert i == |s|;
    } else {
      assert s[|pre|] == core[0];
      assert i == |pre|;
      assert s[e - 1] == core[|core| - 1];
      assert r != [];
      assert r[|r| - 1] == s[i + |r| - 1];
      assert i + |r| == e;
      assert s[i..e] == core;
    }
  }

  /** A text that neither starts nor ends with a `cs` character is left as it is. */
  lemma StripNone(s: string, cs: set<char>)
    requires s != [] ==> s[0] !in cs && s[|s| - 1] !in cs
    ensures Strip(s, cs) == s
  {
    StripExact([], s, [], cs);
    assert [] + s + [] == s;
  }

  /** Only the trailing run of `cs` characters is removed from such a text followed by one. */
  lemma StripTrailingRun(s: string, suf: string, cs: set<char>)
    requires s != [] ==> s[0] !in cs && s[|s| - 1] !in cs
    requires forall k :: 0 <= k < |suf| ==> suf[k] in cs
    ensures Strip(s + suf, cs) == s
  {
    StripExact([], s, suf, cs);
    assert [] + s + suf == s + suf;
  }

  /** Wrapping a core in runs of `inner` characters keeps `cs` characters off both ends. */
  lemma WrappedEnds(i1: string, core: string, i2: string, inner: set<char>, cs: set<char>)
    requires inner !! cs
    requires forall k :: 0 <= k < |i1| ==> i1[k] in inner
    requires forall k :: 0 <= k < |i2| ==> i2[k] in inner
    requires core != [] ==> core[0] !in cs && core[|core| - 1] !in cs
    ensures var mid := i1 + core + i2; mid != [] ==> mid[0] !in cs && mid[|mid| - 1] !in cs
  {
    var mid := i1 + core + i2;
    if mid != [] {
      if i1 != [] {
        assert mid[0] == i1[0];
      } else if core != [] {
        assert mid[0] == core[0];
      } else {
        assert mid[0] == i2[0];
      }
      if i2 != [] {
        assert mid[|mid| - 1] == i2[|i2| - 1];
      } else if core != [] {
        assert mid[|mid| - 1] == core[|core| - 1];
      } else {
        assert mid[|mid| - 1] == i1[|i1| - 1];
      }
    }
  }

  /**
    Stripping `outer` and then `inner` characters, when the two sets are
    disjoint, peels `o1 + i1 + core + i2 + o2` down to `core`.
   */
  lemma StripNested(o1: string, i1: string, core: string, i2: string, o2: string,
                    outer: set<char>, inner: set<char>)
    requires outer !! inner
    requires forall k :: 0 <= k < |o1| ==> o1[k] in outer
    requires forall k :: 0 <= k < |o2| ==> o2[k] in outer
    requires forall k :: 0 <= k < |i1| ==> i1[k] in inner
    requires forall k :: 0 <= k < |i2| ==> i2[k] in inner
    requires core != [] ==> core[0] !in outer + inner && core[|core| - 1] !in outer + inner
    ensures Strip(Strip(o1 + i1 + core + i2 + o2, outer), inner) == core
  {
    var mid := i1 + core + i2;
    WrappedEnds(i1, core, i2, inner, outer);
    StripExact(o1, mid, o2, outer);
    assert o1 + i1 + core + i2 + o2 == o1 + mid + o2;
    StripExact(i1, core, i2, inner);
  }

  /**
    Stripping `outer` and then `inner` characters from `core + o + i`, when
    the sets are disjoint, keeps the `outer` run `o` that the `inner` run `i`
    shielded from the first strip.
   */
  lemma StripShielded(core: string, o: string, i: string, outer: set<char>, inner: set<char>)
    requires outer !! inner
    requires core != [] && core[0] !in outer + inner
    requires o != [] && forall k :: 0 <= k < |o| ==> o[k] in outer
    requires i != [] && forall k :: 0 <= k < |i| ==> i[k] in inner
    ensures Strip(Strip(core + o + i, outer), inner) == core + o
  {
    var kept := core + o;
    var s := kept + i;
    assert s[0] == core[0] && s[|s| - 1] == i[|i| - 1];
    StripNone(s, outer);
    assert kept[0] == core[0] && kept[|kept| - 1] == o[|o| - 1];
    StripTrailingRun(kept, i, inner);
  }

  /**
    The mirror image at the front: from `i + o + core`, the leading `inner`
    run `i` shields the `outer` run `o` behind it from the first strip, so
    `o` survives both.
   */
  lemma StripShieldedLeft(i: string, o: string, core: string, outer: set<char>, inner: set<char>)
    requires outer !! inner
    requires core != [] && core[|core| - 1] !in outer + inner
    requires o != [] && forall k :: 0 <= k < |o| ==> o[k] in outer
    requires i != [] && forall k :: 0 <= k < |i| ==> i[k] in inner
    ensures Strip(Strip(i + o + core, outer), inner) == o + core
  {
    var kept := o + core;
    var s := i + kept;
    assert i + o + core == s;
    assert s[0] == i[0] && s[|s| - 1] == core[|core| - 1];
    StripNone(s, outer);
    assert kept[0] == o[0] && kept[|kept| - 1] == core[|core| - 1];
    StripExact(i, kept, [], inner);
    assert i + kept + [] == s;
  }

  /** Stripping twice with the same characters changes nothing more. */
  lemma StripIdempotent(s: string, cs: set<char>)
    ensures Strip(Strip(s, cs), cs) == Strip(s, cs)
  {
    StripSpec(s, cs);
    StripNone(Strip(s, cs), cs);
  }

  /**
    The characters for which Python's `str.isspace()` holds: the ASCII
    controls tab to carriage return and file to unit separator, space, and
    the Unicode separators Python treats as whitespace.
   */
  predicate IsSpace(c: char)
  {
    '\t' <= c <= '\r' || '\U{001C}' <= c <= ' ' || c == '\U{0085}' || c == '\U{00A0}'
    || c == '\U{1680}' || '\U{2000}' <= c <= '\U{200A}' || c == '\U{2028}' || c == '\U{2029}'
    || c == '\U{202F}' || c == '\U{205F}' || c == '\U{3000}'
  }

  /** What `str.strip()` with no argument removes. */
  const Whitespace: set<char> := set c: char | IsSpace(c)

  /**
    Among ASCII characters, `str.strip()` removes exactly tab, line feed,
    vertical tab, form feed, carriage return, the four separators `\x1c` to
    `\x1f` and space; beyond ASCII it also removes, for instance, the
    no-break and ideographic spaces, but not the zero-width space.
   */
  lemma WhitespaceChars()
    ensures forall c: char :: c < '\U{0080}' ==>
      (c in Whitespace <==> c == ' ' || '\t' <= c <= '\r' || '\U{001C}' <= c <= '\U{001F}')
    ensures '\U{00A0}' in Whitespace && '\U{3000}' in Whitespace && '\U{200B}' !in Whitespace
  {
  }

  /** `s.strip()`: surrounding whitespace removed. */
  function StripWs(s: string): (r: string)
    ensures |r| <= |s|
    ensures r != [] ==> !IsSpace(r[0]) && !IsSpace(r[|r| - 1])
  {
    Strip(s, Whitespace)
  }

  /** `s.strip(c)` for a one-character argument: surrounding `c` removed. */
  function StripChar(s: string, c: char): (r: string)
    ensures |r| <= |s|
    ensures r != [] ==> r[0] != c && r[|r| - 1] != c
  {
    Strip(s, {c})
  }
}
