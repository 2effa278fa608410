/** The JavaScript string operations the caption pipeline relies on:
    the whitespace class `\s`, `trim`, `includes`, `Array.prototype.join`,
    and `split` on a single separator character as the inverse of `join`. */
module Text {

  /** JavaScript's `\s` (and the set `String.prototype.trim` strips): the
      WhiteSpace and LineTerminator code points of ECMAScript. */
  predicate IsSpace(c: char) {
    || c == ' ' || c == '\t' || c == '\n' || c == '\r'
    || c == '\U{000B}' || c == '\U{000C}' || c == '\U{00A0}' || c == '\U{1680}'
    || ('\U{2000}' <= c <= '\U{200A}')
    || c == '\U{2028}' || c == '\U{2029}' || c == '\U{202F}' || c == '\U{205F}'
    || c == '\U{3000}' || c == '\U{FEFF}'
  }

  /** Every character of `s` is whitespace (vacuously so for ""). */
  predicate IsBlank(s: string) {
    forall i :: 0 <= i < |s| ==> IsSpace(s[i])
  }

  /** The end of the whitespace run that starts at `e`. */
  function RunEnd(s: string, e: nat): (r: nat)
    requires e <= |s|
    ensures e <= r <= |s|
    ensures forall i :: e <= i < r ==> IsSpace(s[i])
    ensures r == |s| || !IsSpace(s[r])
    decreases |s| - e
  {
    if e < |s| && IsSpace(s[e]) then RunEnd(s, e + 1) else e
  }

  /** The start of the whitespace run that ends at `j`, going no lower than `lo`. */
  function RunStart(s: string, lo: nat, j: nat): (r: nat)
    requires lo <= j <= |s|
    ensures lo <= r <= j
    ensures forall i :: r <= i < j ==> IsSpace(s[i])
    ensures r == lo || !IsSpace(s[r - 1])
    decreases j - lo
  {
    if lo < j && IsSpace(s[j - 1]) then RunStart(s, lo, j - 1) else j
  }

  /** `String.prototype.trim`: the slice of `s` left once the leading and the
      trailing whitespace are cut away; it has no whitespace at either end and
      is empty exactly when `s` is blank. */
  function Trim(s: string): (r: string)
    ensures var i := RunEnd(s, 0);
      && i + |r| <= |s| && r == s[i..i + |r|]
      && (forall k :: 0 <= k < i ==> IsSpace(s[k]))
      && (forall k :: i + |r| <= k < |s| ==> IsSpace(s[k]))
    ensures r == [] || (!IsSpace(r[0]) && !IsSpace(r[|r| - 1]))
    ensures r == [] <==> IsBlank(s)
  {
    var i := RunEnd(s, 0);
    var j := RunStart(s, i, |s|);
    assert i < |s| ==> i < j;
    s[i..j]
  }

  /** `String.prototype.includes`. */
  predicate Contains(s: string, sub: string)
    decreases |s|
  {
    (|sub| <= |s| && s[..|sub|] == sub) || (|s| > 0 && Contains(s[1..], sub))
  }

  /** `Array.prototype.join(sep)` over strings: "" for no parts, the parts in
      order with `sep` between neighbours otherwise. */
  function JoinWith(parts: seq<string>, sep: string): string {
    if |parts| == 0 then ""
    else if |parts| == 1 then parts[0]
    else parts[0] + sep + JoinWith(parts[1..], sep)
  }

  /** A join starts with its first part and ends with its last. */
  lemma {:induction false} JoinWithEnds(parts: seq<string>, sep: string)
    requires |parts| > 0
    ensures parts[0] <= JoinWith(parts, sep)
    ensures var r, last := JoinWith(parts, sep), parts[|parts| - 1];
      |last| <= |r| && r[|r| - |last|..] == last
  {
    if |parts| > 1 {
      JoinWithEnds(parts[1..], sep);
      var r := JoinWith(parts[1..], sep);
      assert JoinWith(parts, sep) == parts[0] + sep + r;
    }
  }

  lemma JoinCons(p: string, ps: seq<string>, sep: string)
    requires |ps| > 0
    ensures JoinWith([p] + ps, sep) == p + sep + JoinWith(ps, sep)
  {
  }

  /** `s.split(sep)` for a one-character separator: the maximal
      separator-free pieces, always at least one. */
  function SplitOn(s: string, sep: char): (parts: seq<string>)
    ensures |parts| > 0
    ensures forall i :: 0 <= i < |parts| ==> sep !in parts[i]
  {
    if s == [] then [[]]
    else
      var rest := SplitOn(s[1..], sep);
      if s[0] == sep then [[]] + rest
      else
        assert forall i :: 1 <= i < |rest| ==> ([[s[0]] + rest[0]] + rest[1..])[i] == rest[i];
        [[s[0]] + rest[0]] + rest[1..]
  }

  /** Joining the pieces of `split` with the separator gives the string back. */
  lemma {:induction false} JoinSplitOn(s: string, sep: char)
    ensures JoinWith(SplitOn(s, sep), [sep]) == s
  {
    if s != [] {
      var rest := SplitOn(s[1..], sep);
      JoinSplitOn(s[1..], sep);
      if s[0] == sep {
        assert SplitOn(s, sep) == [[]] + rest;
        JoinCons([], rest, [sep]);
        assert s == [sep] + s[1..];
      } else {
        var parts := [[s[0]] + rest[0]] + rest[1..];
        assert SplitOn(s, sep) == parts;
        JoinHead(s[0], rest, [sep]);
        assert s == [s[0]] + s[1..];
      }
    }
  }

  lemma JoinHead(c: char, ps: seq<string>, sep: string)
    requires |ps| > 0
    ensures JoinWith([[c] + ps[0]] + ps[1..], sep) == [c] + JoinWith(ps, sep)
  {
  }

  lemma {:induction false} SplitOnPrefix(x: string, t: string, sep: char)
    requires sep !in x
    ensures SplitOn(x + t, sep) == [x + SplitOn(t, sep)[0]] + SplitOn(t, sep)[1..]
  {
    var p := SplitOn(t, sep);
    if x != [] {
      var rest := SplitOn(x[1..] + t, sep);
      assert rest == [x[1..] + p[0]] + p[1..] by {
        SplitOnPrefix(x[1..], t, sep);
      }
      assert SplitOn(x + t, sep) == [[x[0]] + rest[0]] + rest[1..] by {
        assert (x + t)[1..] == x[1..] + t;
        assert (x + t)[0] == x[0] != sep;
      }
      assert [x[0]] + (x[1..] + p[0]) == x + p[0];
    } else {
      assert x + t == t;
      assert [] + p[0] == p[0];
      assert p == [p[0]] + p[1..];
    }
  }

  lemma SplitOnField(x: string, rest: string, sep: char)
    requires sep !in x
    ensures SplitOn(x + [sep] + rest, sep) == [x] + SplitOn(rest, sep)
  {
    var t := [sep] + rest;
    assert t[1..] == rest;
    var q := SplitOn(t, sep);
    assert q == [[]] + SplitOn(rest, sep);
    SplitOnPrefix(x, t, sep);
    assert x + [sep] + rest == x + t;
    assert x + q[0] == x;
  }

  /** Splitting a joined list of separator-free strings gives the list back. */
  lemma {:induction false} SplitOnJoin(parts: seq<string>, sep: char)
    requires |parts| > 0
    requires forall i :: 0 <= i < |parts| ==> sep !in parts[i]
    ensures SplitOn(JoinWith(parts, [sep]), sep) == parts
  {
    if |parts| == 1 {
      SplitOnPrefix(parts[0], [], sep);
      assert SplitOn([], sep) == [[]];
      assert parts[0] + [] == parts[0];
      assert parts == [parts[0]];
    } else {
      SplitOnJoin(parts[1..], sep);
      SplitOnField(parts[0], JoinWith(parts[1..], [sep]), sep);
      assert parts == [parts[0]] + parts[1..];
    }
  }
}
