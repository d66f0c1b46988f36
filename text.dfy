/**
 * The two string helpers of Go's standard library that the blocklist
 * relies on: `strings.TrimSpace` and `strings.FieldsFunc` with a
 * comma separator. Strings are sequences of Unicode scalar values.
 */
module Text {

  /** Go's `unicode.IsSpace`: the Latin-1 spaces plus the other White_Space characters. */
  predicate IsSpace(c: char) {
    c == ' ' || c == '\t' || c == '\n' || c == '\r' || c == '\U{000B}' || c == '\U{000C}'
    || c == '\U{0085}' || c == '\U{00A0}' || c == '\U{1680}'
    || ('\U{2000}' <= c <= '\U{200A}')
    || c == '\U{2028}' || c == '\U{2029}' || c == '\U{202F}' || c == '\U{205F}' || c == '\U{3000}'
  }

  /** True when every character of `s` is a space. */
  predicate AllSpace(s: string) {
    forall i :: 0 <= i < |s| ==> IsSpace(s[i])
  }

  /** Drops the leading spaces of `s`. */
  function TrimLeft(s: string): (r: string)
    ensures r == [] || !IsSpace(r[0])
    ensures |r| <= |s|
  {
    if s != [] && IsSpace(s[0]) then TrimLeft(s[1..]) else s
  }

  /** Drops the trailing spaces of `s`. */
  function TrimRight(s: string): (r: string)
    ensures r == [] || !IsSpace(r[|r| - 1])
    ensures |r| <= |s|
  {
    if s != [] && IsSpace(s[|s| - 1]) then TrimRight(s[..|s| - 1]) else s
  }

  /**
   * Go's `strings.TrimSpace`: `s` without its leading and trailing spaces.
   * The result neither starts nor ends with a space; `TrimSpaceIsInfix`
   * shows it is the middle of `s` with only spaces cut off either side.
   */
  function TrimSpace(s: string): (r: string)
    ensures r == [] || (!IsSpace(r[0]) && !IsSpace(r[|r| - 1]))
  {
    var r := TrimRight(TrimLeft(s));
    assert r != [] ==> r[0] == TrimLeft(s)[0] by {
      if r != [] { TrimRightIsPrefix(TrimLeft(s)); }
    }
    r
  }

  lemma {:induction false} TrimLeftIsSuffix(s: string)
    ensures TrimLeft(s) == s[|s| - |TrimLeft(s)|..]
    ensures AllSpace(s[..|s| - |TrimLeft(s)|])
  {
    if s != [] && IsSpace(s[0]) {
      TrimLeftIsSuffix(s[1..]);
      var n := |s| - |TrimLeft(s)|;
      assert s[..n] == [s[0]] + s[1..][..n - 1];
    }
  }

  lemma {:induction false} TrimRightIsPrefix(s: string)
    ensures TrimRight(s) == s[..|TrimRight(s)|]
    ensures AllSpace(s[|TrimRight(s)|..])
  {
    if s != [] && IsSpace(s[|s| - 1]) {
      var t := s[..|s| - 1];
      TrimRightIsPrefix(t);
      var n := |TrimRight(s)|;
      assert s[n..] == t[n..] + [s[|s| - 1]];
    }
  }

  /** What `TrimSpace` keeps is a contiguous part of `s`, and all it drops are spaces. */
  lemma TrimSpaceIsInfix(s: string)
    ensures var r := TrimSpace(s);
            exists i :: 0 <= i <= |s| - |r| && s[i..i + |r|] == r && AllSpace(s[..i]) && AllSpace(s[i + |r|..])
  {
    var l := TrimLeft(s);
    var r := TrimSpace(s);
    TrimLeftIsSuffix(s);
    TrimRightIsPrefix(l);
    var i := |s| - |l|;
    assert s[i..i + |r|] == r;
    assert s[i + |r|..] == l[|r|..];
  }

  /** Length of the comma-free field at the front of `s`. */
  function FieldLength(s: string): (k: nat)
    ensures k <= |s| && ',' !in s[..k]
    ensures k < |s| ==> s[k] == ','
  {
    if s == [] || s[0] == ',' then 0 else 1 + FieldLength(s[1..])
  }

  /**
   * Go's `strings.FieldsFunc(s, func(c rune) bool { return c == ',' })`:
   * the maximal runs of non-comma characters of `s`, left to right; empty
   * fields (from leading, trailing or doubled commas) are dropped.
   */
  function Fields(s: string): (r: seq<string>)
    ensures forall i :: 0 <= i < |r| ==> r[i] != [] && ',' !in r[i]
    decreases |s|
  {
    if s == [] then []
    else if s[0] == ',' then Fields(s[1..])
    else
      var k := FieldLength(s);
      [s[..k]] + Fields(s[k..])
  }

  /** `fs` joined with a comma between consecutive elements. */
  function JoinCommas(fs: seq<string>): string {
    if fs == [] then []
    else if |fs| == 1 then fs[0]
    else fs[0] + [','] + JoinCommas(fs[1..])
  }

  /** Concatenation of all elements of `fs`. */
  function Concat(fs: seq<string>): string {
    if fs == [] then [] else fs[0] + Concat(fs[1..])
  }

  /** `s` with every comma removed. */
  function RemoveCommas(s: string): string {
    if s == [] then []
    else (if s[0] == ',' then [] else [s[0]]) + RemoveCommas(s[1..])
  }

  lemma {:induction false} TrimLeftSkipsSpaces(p: string, x: string)
    requires AllSpace(p)
    ensures TrimLeft(p + x) == TrimLeft(x)
  {
    if p != [] {
      assert (p + x)[1..] == p[1..] + x;
      TrimLeftSkipsSpaces(p[1..], x);
    } else {
      assert p + x == x;
    }
  }

  lemma {:induction false} TrimRightSkipsSpaces(x: string, q: string)
    requires AllSpace(q)
    ensures TrimRight(x + q) == TrimRight(x)
  {
    if q != [] {
      var n := |q| - 1;
      assert (x + q)[..|x + q| - 1] == x + q[..n];
      TrimRightSkipsSpaces(x, q[..n]);
    } else {
      assert x + q == x;
    }
  }

  lemma {:induction false} TrimLeftAppend(s: string, q: string)
    ensures TrimLeft(s) != [] ==> TrimLeft(s + q) == TrimLeft(s) + q
    ensures TrimLeft(s) == [] ==> TrimLeft(s + q) == TrimLeft(q)
  {
    if s != [] {
      assert (s + q)[1..] == s[1..] + q;
      if IsSpace(s[0]) {
        TrimLeftAppend(s[1..], q);
      }
    } else {
      assert s + q == q;
    }
  }

  /**
   * Trimming is blind to surrounding whitespace: padding a text with spaces
   * on either side does not change what `TrimSpace` returns.
   */
  lemma TrimSpaceIgnoresPadding(p: string, s: string, q: string)
    requires AllSpace(p) && AllSpace(q)
    ensures TrimSpace(p + s + q) == TrimSpace(s)
  {
    assert p + s + q == p + (s + q);
    TrimLeftSkipsSpaces(p, s + q);
    TrimLeftAppend(s, q);
    if TrimLeft(s) != [] {
      TrimRightSkipsSpaces(TrimLeft(s), q);
    } else {
      TrimLeftSkipsSpaces(q, []);
      assert q + [] == q;
    }
  }

  lemma {:induction false} FieldLengthOfField(f: string, t: string)
    requires ',' !in f
    requires t == [] || t[0] == ','
    ensures FieldLength(f + t) == |f|
  {
    if f != [] {
      assert (f + t)[0] == f[0];
      assert (f + t)[1..] == f[1..] + t;
      FieldLengthOfField(f[1..], t);
    } else {
      assert f + t == t;
    }
  }

  lemma {:induction false} FieldLengthBeforeComma(a: string, t: string)
    requires t != [] && t[0] == ','
    ensures FieldLength(a + t) == FieldLength(a)
  {
    if a == [] {
      assert a + t == t;
    } else if a[0] != ',' {
      assert (a + t)[0] == a[0];
      assert (a + t)[1..] == a[1..] + t;
      FieldLengthBeforeComma(a[1..], t);
    }
  }

  /** A non-empty comma-free text is a single field. */
  lemma FieldsOfField(f: string)
    requires f != [] && ',' !in f
    ensures Fields(f) == [f]
  {
    FieldsOfJoin([f]);
  }

  /**
   * Every comma is a cut point: the fields of `a + "," + b` are the fields
   * of `a` followed by those of `b`. With `Fields([]) == []` and
   * `FieldsOfField` this determines `Fields` on every input, so doubled,
   * leading and trailing commas yield no empty field.
   */
  lemma {:induction false} FieldsAtComma(a: string, b: string)
    ensures Fields(a + [','] + b) == Fields(a) + Fields(b)
    decreases |a|
  {
    var s := a + [','] + b;
    if a == [] {
      assert s == [','] + b;
      assert s[1..] == b;
    } else if a[0] == ',' {
      assert s[0] == ',';
      assert s[1..] == a[1..] + [','] + b;
      FieldsAtComma(a[1..], b);
    } else {
      assert s == a + ([','] + b);
      FieldLengthBeforeComma(a, [','] + b);
      var k := FieldLength(a);
      assert s[0] == a[0];
      assert s[..k] == a[..k];
      assert s[k..] == a[k..] + [','] + b;
      FieldsAtComma(a[k..], b);
    }
  }

  /**
   * Splitting undoes joining: non-empty comma-free fields joined with
   * commas split back into exactly those fields, in order.
   */
  lemma {:induction false} FieldsOfJoin(fs: seq<string>)
    requires forall i :: 0 <= i < |fs| ==> fs[i] != [] && ',' !in fs[i]
    ensures Fields(JoinCommas(fs)) == fs
  {
    if |fs| == 1 {
      var f := fs[0];
      FieldLengthOfField(f, []);
      assert f + [] == f;
      assert f[..|f|] == f;
    } else if |fs| > 1 {
      var f, rest := fs[0], JoinCommas(fs[1..]);
      var s := f + [','] + rest;
      assert s == f + ([','] + rest);
      FieldLengthOfField(f, [','] + rest);
      assert s[0] == f[0];
      assert s[..|f|] == f;
      assert s[|f|..] == [','] + rest;
      assert ([','] + rest)[1..] == rest;
      FieldsOfJoin(fs[1..]);
      assert fs == [f] + fs[1..];
    }
  }

  lemma {:induction false} RemoveCommasAppend(a: string, b: string)
    ensures RemoveCommas(a + b) == RemoveCommas(a) + RemoveCommas(b)
  {
    if a == [] {
      assert a + b == b;
    } else {
      assert (a + b)[0] == a[0];
      assert (a + b)[1..] == a[1..] + b;
      RemoveCommasAppend(a[1..], b);
    }
  }

  lemma {:induction false} RemoveCommasOfField(f: string)
    requires ',' !in f
    ensures RemoveCommas(f) == f
  {
    if f != [] {
      RemoveCommasOfField(f[1..]);
      assert f == [f[0]] + f[1..];
    }
  }

  /**
   * Splitting loses no text but the separators: the fields of `s`, put back
   * together, are `s` with its commas removed.
   */
  lemma {:induction false} ConcatOfFields(s: string)
    ensures Concat(Fields(s)) == RemoveCommas(s)
    decreases |s|
  {
    if s != [] {
      if s[0] == ',' {
        ConcatOfFields(s[1..]);
      } else {
        var k := FieldLength(s);
        var fs := [s[..k]] + Fields(s[k..]);
        assert fs[0] == s[..k] && fs[1..] == Fields(s[k..]);
        ConcatOfFields(s[k..]);
        assert s == s[..k] + s[k..];
        RemoveCommasAppend(s[..k], s[k..]);
        RemoveCommasOfField(s[..k]);
      }
    }
  }
}
