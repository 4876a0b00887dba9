/**
 * Normalisation of the `meds` array of a check-interactions request:
 * every element becomes a string (non-strings become the empty string),
 * strings are trimmed as JavaScript's `String.prototype.trim` does, and
 * empty results are dropped. Order and repeats are kept.
 */
module Normalization {

  /** One element of the JSON array `meds`: a string, or any other JSON value. */
  datatype Raw = Str(s: string) | NonString

  /**
   * The characters `trim` removes: ECMAScript WhiteSpace (tab, vertical tab,
   * form feed, space, no-break space, byte order mark and the Unicode space
   * separators) and LineTerminator (line feed, carriage return, line and
   * paragraph separators).
   */
  const TrimmableChars: set<char> := {
    '\t', '\n', '\U{B}', '\U{C}', '\r', ' ', '\U{A0}', '\U{1680}',
    '\U{2000}', '\U{2001}', '\U{2002}', '\U{2003}', '\U{2004}', '\U{2005}',
    '\U{2006}', '\U{2007}', '\U{2008}', '\U{2009}', '\U{200A}',
    '\U{2028}', '\U{2029}', '\U{202F}', '\U{205F}', '\U{3000}', '\U{FEFF}'
  }

  predicate IsTrimmable(c: char) {
    c in TrimmableChars
  }

  predicate AllTrimmable(s: string) {
    forall k :: 0 <= k < |s| ==> IsTrimmable(s[k])
  }

  /** A string with no trimmable character at either end. */
  predicate Trimmed(s: string) {
    s == [] || (!IsTrimmable(s[0]) && !IsTrimmable(s[|s| - 1]))
  }

  /** Drops the leading trimmable characters. */
  function TrimStart(s: string): (r: string)
    ensures |r| <= |s|
  {
    if s != [] && IsTrimmable(s[0]) then TrimStart(s[1..]) else s
  }

  /** TrimStart drops a trimmable prefix and stops at the first character that is not trimmable. */
  lemma {:induction false} TrimStartSpec(s: string)
    ensures var r := TrimStart(s);
      && r == s[|s| - |r|..]
      && (forall k :: 0 <= k < |s| - |r| ==> IsTrimmable(s[k]))
      && (r == [] || !IsTrimmable(r[0]))
  {
    if s != [] && IsTrimmable(s[0]) {
      TrimStartSpec(s[1..]);
      assert forall k :: 1 <= k < |s| ==> s[k] == s[1..][k - 1];
    }
  }

  /** Drops the trailing trimmable characters. */
  function TrimEnd(s: string): (r: string)
    ensures |r| <= |s|
  {
    if s != [] && IsTrimmable(s[|s| - 1]) then TrimEnd(s[..|s| - 1]) else s
  }

  /** TrimEnd drops a trimmable suffix and stops at the last character that is not trimmable. */
  lemma {:induction false} TrimEndSpec(s: string)
    ensures var r := TrimEnd(s);
      && r == s[..|r|]
      && (forall k :: |r| <= k < |s| ==> IsTrimmable(s[k]))
      && (r == [] || !IsTrimmable(r[|r| - 1]))
  {
    if s != [] && IsTrimmable(s[|s| - 1]) {
      TrimEndSpec(s[..|s| - 1]);
    }
  }

  /** `String.prototype.trim`: a slice of the input with no trimmable character at either end. */
  function Trim(s: string): (r: string)
    ensures |r| <= |s|
    ensures Trimmed(r)
  {
    var t := TrimStart(s);
    var r := TrimEnd(t);
    TrimStartSpec(s);
    TrimEndSpec(t);
    assert r != [] ==> r[0] == t[0];
    r
  }

  /** Trim returns the empty string exactly for strings made only of trimmable characters. */
  lemma TrimEmpty(s: string)
    ensures Trim(s) == [] <==> AllTrimmable(s)
  {
    var t := TrimStart(s);
    TrimStartSpec(s);
    TrimEndSpec(t);
    var d := |s| - |t|;
    if Trim(s) == [] {
      // TrimEnd(t) is empty, so all of t is trimmable, yet t does not start with a trimmable character
      assert t == [];
    }
    // the first character TrimStart keeps is the character of s at that position
    assert t != [] ==> t[0] == s[d];
  }

  lemma TrimStartOf(p: string, x: string)
    requires AllTrimmable(p)
    requires x == [] || !IsTrimmable(x[0])
    ensures TrimStart(p + x) == x
  {
    var s := p + x;
    var t := TrimStart(s);
    TrimStartSpec(s);
    var d := |s| - |t|;
    assert x != [] ==> s[|p|] == x[0];
    assert forall k :: 0 <= k < |p| ==> s[k] == p[k];
    assert t != [] ==> t[0] == s[d];
    assert d == |p|;
    assert s[d..] == x;
  }

  lemma TrimEndOf(x: string, q: string)
    requires AllTrimmable(q)
    requires x == [] || !IsTrimmable(x[|x| - 1])
    ensures TrimEnd(x + q) == x
  {
    var s := x + q;
    var t := TrimEnd(s);
    TrimEndSpec(s);
    assert x != [] ==> s[|x| - 1] == x[|x| - 1];
    assert forall k :: |x| <= k < |s| ==> s[k] == q[k - |x|];
    assert t != [] ==> t[|t| - 1] == s[|t| - 1];
    assert |t| == |x|;
    assert s[..|t|] == x;
  }

  /**
   * Trim is characterised without reference to how it is computed: when a
   * string is a trimmable prefix, a core with no trimmable character at
   * either end and a trimmable suffix, the core is what trim returns.
   */
  lemma TrimUnique(s: string, p: string, core: string, q: string)
    requires s == p + core + q
    requires AllTrimmable(p) && AllTrimmable(q) && Trimmed(core)
    ensures Trim(s) == core
  {
    if core == [] {
      assert s == p + q;
      assert forall k :: 0 <= k < |p| ==> s[k] == p[k];
      assert forall k :: |p| <= k < |s| ==> s[k] == q[k - |p|];
      TrimEmpty(s);
    } else {
      assert s == p + (core + q);
      TrimStartOf(p, core + q);
      TrimEndOf(core, q);
    }
  }

  /** A string without trimmable ends is left as it is. */
  lemma TrimKeeps(s: string)
    requires Trimmed(s)
    ensures Trim(s) == s
  {
    assert s == [] + s + [];
    TrimUnique(s, [], s, []);
  }

  /** Trimming twice is trimming once. */
  lemma TrimIdempotent(s: string)
    ensures Trim(Trim(s)) == Trim(s)
  {
    TrimKeeps(Trim(s));
  }

  /** What one element of `meds` becomes before empty strings are filtered out. */
  function Entry(m: Raw): (e: string)
    ensures Trimmed(e)
    ensures m.NonString? ==> e == []
  {
    match m
    case Str(s) => Trim(s)
    case NonString => ""
  }

  /** The normalised list of requested names. */
  function Normalize(items: seq<Raw>): (names: seq<string>)
    ensures |names| <= |items|
  {
    if items == [] then []
    else Contribution(items[0]) + Normalize(items[1..])
  }

  /** The names one element adds to the normalised list: its trimmed text, or nothing when that is empty. */
  function Contribution(m: Raw): (c: seq<string>)
    ensures |c| <= 1
  {
    if Entry(m) == [] then [] else [Entry(m)]
  }

  /** Normalisation works element by element, so it keeps the order of the input. */
  lemma {:induction false} NormalizeAppend(a: seq<Raw>, b: seq<Raw>)
    ensures Normalize(a + b) == Normalize(a) + Normalize(b)
  {
    if a == [] {
      assert a + b == b;
    } else {
      ConsAppend(a, b);
      NormalizeAppend(a[1..], b);
      calc {
        Normalize(a + b);
        Contribution(a[0]) + Normalize(a[1..] + b);
        Contribution(a[0]) + (Normalize(a[1..]) + Normalize(b));
        (Contribution(a[0]) + Normalize(a[1..])) + Normalize(b);
        Normalize(a) + Normalize(b);
      }
    }
  }

  lemma ConsAppend<T>(a: seq<T>, b: seq<T>)
    requires a != []
    ensures (a + b)[0] == a[0] && (a + b)[1..] == a[1..] + b
  {
    assert (a + b)[1..] == a[1..] + b;
  }

  /** A request whose elements are all strings. */
  function AsRaw(texts: seq<string>): (items: seq<Raw>)
    ensures |items| == |texts|
  {
    seq(|texts|, k requires 0 <= k < |texts| => Str(texts[k]))
  }

  lemma AsRawCons(texts: seq<string>)
    requires texts != []
    ensures AsRaw(texts)[0] == Str(texts[0]) && AsRaw(texts)[1..] == AsRaw(texts[1..])
  {
    assert AsRaw(texts)[1..] == AsRaw(texts[1..]);
  }

  /** A name with no trimmable ends contributes itself. */
  lemma NameContributesItself(a: string)
    requires a != [] && Trimmed(a)
    ensures Contribution(Str(a)) == [a]
  {
    TrimKeeps(a);
  }

  /** Names that are already non-empty and trimmed pass through normalisation unchanged. */
  lemma {:induction false} NormalizeClean(names: seq<string>)
    requires forall k :: 0 <= k < |names| ==> names[k] != [] && Trimmed(names[k])
    ensures Normalize(AsRaw(names)) == names
  {
    if names != [] {
      AsRawCons(names);
      NameContributesItself(names[0]);
      NormalizeClean(names[1..]);
    }
  }

  /** One element contributes its trimmed text when that is non-empty, and nothing otherwise. */
  lemma NormalizeOne(m: Raw)
    ensures Normalize([m]) == if m.Str? && Trim(m.s) != [] then [Trim(m.s)] else []
  {
    assert [m][1..] == [];
  }

  /**
   * A name is in the normalised list exactly when some element of the input
   * is a string whose trimmed text is that non-empty name.
   */
  lemma {:induction false} NormalizeMembership(items: seq<Raw>, n: string)
    ensures n in Normalize(items) <==>
      (n != [] && exists k :: 0 <= k < |items| && items[k].Str? && Trim(items[k].s) == n)
  {
    if items != [] {
      var rest := items[1..];
      NormalizeMembership(rest, n);
      assert n in Normalize(items) <==> n in Contribution(items[0]) || n in Normalize(rest);
      assert n in Contribution(items[0]) <==> n != [] && items[0].Str? && Trim(items[0].s) == n;
      if n in Normalize(rest) {
        var k :| 0 <= k < |rest| && rest[k].Str? && Trim(rest[k].s) == n;
        assert items[k + 1] == rest[k];
      }
      if n != [] && exists k :: 0 <= k < |items| && items[k].Str? && Trim(items[k].s) == n {
        var k :| 0 <= k < |items| && items[k].Str? && Trim(items[k].s) == n;
        if k > 0 {
          assert rest[k - 1] == items[k];
        }
      }
    }
  }

  /** Normalisation yields nothing exactly when no element is a string with a non-trimmable character. */
  lemma NormalizeEmpty(items: seq<Raw>)
    ensures Normalize(items) == [] <==>
      forall k :: 0 <= k < |items| && items[k].Str? ==> AllTrimmable(items[k].s)
  {
    var names := Normalize(items);
    if names != [] {
      NormalizeMembership(items, names[0]);
      var k :| 0 <= k < |items| && items[k].Str? && Trim(items[k].s) == names[0];
      TrimEmpty(items[k].s);
    }
    if exists k :: 0 <= k < |items| && items[k].Str? && !AllTrimmable(items[k].s) {
      var k :| 0 <= k < |items| && items[k].Str? && !AllTrimmable(items[k].s);
      TrimEmpty(items[k].s);
      NormalizeMembership(items, Trim(items[k].s));
    }
  }

  /** Every name in the normalised list is non-empty and has no trimmable character at either end. */
  lemma NormalizedNamesAreClean(items: seq<Raw>)
    ensures forall n :: n in Normalize(items) ==> n != [] && Trimmed(n)
  {
    forall n | n in Normalize(items) ensures n != [] && Trimmed(n) {
      NormalizeMembership(items, n);
    }
  }
}
