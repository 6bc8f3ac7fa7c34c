/** The few operations of Python's `str` that the mapping-file parser relies on:
    `strip()` with no argument, `split(sep)` with an explicit one-character
    separator, and `"".join(...)`. Strings are sequences of Unicode scalar values. */
module PyStrings {

  /** Python's `str.isspace()`: the characters `strip()` removes when called
      without an argument. */
  predicate IsSpace(c: char) {
    || ('\t' <= c <= '\r')
    || ('\U{1C}' <= c <= '\U{1F}')
    || c == ' '
    || c == '\U{85}'
    || c == '\U{A0}'
    || c == '\U{1680}'
    || ('\U{2000}' <= c <= '\U{200A}')
    || c == '\U{2028}'
    || c == '\U{2029}'
    || c == '\U{202F}'
    || c == '\U{205F}'
    || c == '\U{3000}'
  }

  /** `s.lstrip()`: the suffix of `s` left after dropping every leading space. */
  function TrimLeft(s: string): (r: string)
    ensures |r| <= |s| && r == s[|s| - |r|..]
    ensures forall k :: 0 <= k < |s| - |r| ==> IsSpace(s[k])
    ensures r == [] || !IsSpace(r[0])
  {
    if s != [] && IsSpace(s[0]) then TrimLeft(s[1..]) else s
  }

  /** `s.rstrip()`: the prefix of `s` left after dropping every trailing space. */
  function TrimRight(s: string): (r: string)
    ensures |r| <= |s| && r == s[..|r|]
    ensures forall k :: |r| <= k < |s| ==> IsSpace(s[k])
    ensures r == [] || !IsSpace(r[|r| - 1])
  {
    if s != [] && IsSpace(s[|s| - 1]) then TrimRight(s[..|s| - 1]) else s
  }

  /** `s.strip()`: the longest infix of `s` that neither starts nor ends with a
      space; everything cut off on either side is space. */
  function Strip(s: string): (r: string)
    ensures var t := TrimLeft(s); var i := |s| - |t|;
      && |r| <= |t|
      && r == s[i..i + |r|]
      && (forall k :: 0 <= k < i ==> IsSpace(s[k]))
      && (forall k :: i + |r| <= k < |s| ==> IsSpace(s[k]))
    ensures r == [] || (!IsSpace(r[0]) && !IsSpace(r[|r| - 1]))
  {
    TrimRight(TrimLeft(s))
  }

  /** Number of occurrences of `c` in `s` (Python's `s.count(c)`). */
  function Count(s: string, c: char): nat {
    if s == [] then 0 else (if s[0] == c then 1 else 0) + Count(s[1..], c)
  }

  /** `s.split(sep)` with an explicit separator: the maximal runs between
      separators, empty runs included, so there is always one piece more than
      there are separators. */
  function Split(s: string, sep: char): (r: seq<string>)
    ensures |r| == Count(s, sep) + 1
    ensures forall k :: 0 <= k < |r| ==> sep !in r[k]
  {
    if s == [] then [[]]
    else
      var rest := Split(s[1..], sep);
      if s[0] == sep then [[]] + rest
      else [[s[0]] + rest[0]] + rest[1..]
  }

  /** `sep.join(parts)` for a one-character separator. */
  function Join(parts: seq<string>, sep: char): string {
    if |parts| == 0 then []
    else if |parts| == 1 then parts[0]
    else parts[0] + [sep] + Join(parts[1..], sep)
  }

  /** `"".join(parts)`: the pieces glued together with no separator. */
  function Concat(parts: seq<string>): string {
    if parts == [] then [] else parts[0] + Concat(parts[1..])
  }

  /** `s` with every occurrence of `c` removed (`s.replace(c, "")`). */
  function Without(s: string, c: char): string {
    if s == [] then []
    else (if s[0] == c then [] else [s[0]]) + Without(s[1..], c)
  }

  /** `[x.strip() for x in parts]`. */
  function StripEach(parts: seq<string>): (r: seq<string>)
    ensures |r| == |parts|
    ensures forall k :: 0 <= k < |r| ==> r[k] == Strip(parts[k])
  {
    if parts == [] then [] else [Strip(parts[0])] + StripEach(parts[1..])
  }

  /** Stripping twice changes nothing more than stripping once. */
  lemma StripIdempotent(s: string)
    ensures Strip(Strip(s)) == Strip(s)
  {
    var r := Strip(s);
    if r != [] {
      assert !IsSpace(r[0]);
      assert TrimLeft(r) == r;
      assert !IsSpace(r[|r| - 1]);
    }
  }

  /** A string made only of spaces strips to the empty string. */
  lemma StripAllSpace(s: string)
    requires forall k :: 0 <= k < |s| ==> IsSpace(s[k])
    ensures Strip(s) == []
  {
  }

  /** Splitting and then re-joining with the same separator gives back the
      original string. */
  lemma {:induction false} JoinOfSplit(s: string, sep: char)
    ensures Join(Split(s, sep), sep) == s
  {
    if s != [] {
      var rest := Split(s[1..], sep);
      JoinOfSplit(s[1..], sep);
      if s[0] == sep {
        assert Split(s, sep) == [[]] + rest;
        JoinCons([], rest, sep);
      } else {
        JoinExtendFirst(s[0], rest, sep);
      }
      assert s == [s[0]] + s[1..];
    }
  }

  /** Joining `[a] + rest` puts `a` and a separator in front of the join of
      `rest`. */
  lemma JoinCons(a: string, rest: seq<string>, sep: char)
    requires rest != []
    ensures Join([a] + rest, sep) == a + [sep] + Join(rest, sep)
  {
    assert ([a] + rest)[1..] == rest;
  }

  /** Prefixing the first piece with `c` prefixes the join with `c`. */
  lemma JoinExtendFirst(c: char, parts: seq<string>, sep: char)
    requires parts != []
    ensures Join([[c] + parts[0]] + parts[1..], sep) == [c] + Join(parts, sep)
  {
    var r := [[c] + parts[0]] + parts[1..];
    if |parts| > 1 {
      assert r[1..] == parts[1..];
    }
  }

  /** Joining separator-free pieces and splitting again gives back the pieces. */
  lemma {:induction false} SplitOfJoin(parts: seq<string>, sep: char)
    requires |parts| >= 1
    requires forall k :: 0 <= k < |parts| ==> sep !in parts[k]
    ensures Split(Join(parts, sep), sep) == parts
  {
    if |parts| == 1 {
      SplitOfPlain(parts[0], sep);
    } else {
      var tail := Join(parts[1..], sep);
      SplitOfJoin(parts[1..], sep);
      SplitOfPlainThenSep(parts[0], sep, tail);
      assert parts == [parts[0]] + parts[1..];
    }
  }

  /** A separator-free string splits into itself alone. */
  lemma {:induction false} SplitOfPlain(s: string, sep: char)
    requires sep !in s
    ensures Split(s, sep) == [s]
  {
    if s != [] {
      SplitOfPlain(s[1..], sep);
      assert s == [s[0]] + s[1..];
    }
  }

  /** Splitting `p + [sep] + t` for a separator-free `p` yields `p` followed by
      the pieces of `t`. */
  lemma {:induction false} SplitOfPlainThenSep(p: string, sep: char, t: string)
    requires sep !in p
    ensures Split(p + [sep] + t, sep) == [p] + Split(t, sep)
  {
    var s := p + [sep] + t;
    if p == [] {
      assert s[1..] == t;
    } else {
      assert s[1..] == p[1..] + [sep] + t;
      SplitOfPlainThenSep(p[1..], sep, t);
      assert p == [p[0]] + p[1..];
    }
  }

  /** The first piece of a split is the text up to the first separator (all of
      `s` when there is none); the remaining pieces are the split of what
      follows that separator. */
  lemma {:induction false} SplitHead(s: string, sep: char)
    ensures var h := Split(s, sep)[0];
      && |h| <= |s| && h == s[..|h|] && sep !in h
      && (|h| == |s| ==> Split(s, sep) == [s])
      && (|h| < |s| ==> s[|h|] == sep && Split(s, sep)[1..] == Split(s[|h| + 1..], sep))
  {
    if s != [] {
      SplitHead(s[1..], sep);
      var rest := Split(s[1..], sep);
      if s[0] != sep {
        var h' := rest[0];
        assert Split(s, sep)[0] == [s[0]] + h';
        assert s == [s[0]] + s[1..];
        if |h'| < |s| - 1 {
          assert s[1..][|h'| + 1..] == s[|h'| + 2..];
        }
      }
    }
  }

  /** Gluing the pieces of a split back together with no separator is the same
      as deleting every separator. */
  lemma {:induction false} ConcatOfSplit(s: string, sep: char)
    ensures Concat(Split(s, sep)) == Without(s, sep)
  {
    if s != [] {
      ConcatOfSplit(s[1..], sep);
      var rest := Split(s[1..], sep);
      if s[0] == sep {
        assert Split(s, sep) == [[]] + rest;
        assert Concat([[]] + rest) == [] + Concat(rest);
      } else {
        var r := Split(s, sep);
        assert r[1..] == rest[1..];
        assert Concat(rest) == rest[0] + Concat(rest[1..]);
        assert Concat(r) == [s[0]] + rest[0] + Concat(rest[1..]);
      }
    }
  }

  /** Gluing together every piece but the first gives what follows the first
      separator with every separator deleted (nothing when there is no
      separator), so it holds no separator. */
  lemma ConcatOfSplitTail(s: string, sep: char)
    ensures var parts := Split(s, sep); var h := parts[0];
      && |h| <= |s|
      && Concat(parts[1..]) == (if |h| == |s| then [] else Without(s[|h| + 1..], sep))
      && sep !in Concat(parts[1..])
  {
    var parts := Split(s, sep);
    var h := parts[0];
    SplitHead(s, sep);
    if |h| < |s| {
      ConcatOfSplit(s[|h| + 1..], sep);
      WithoutLacks(s[|h| + 1..], sep);
    } else {
      assert parts[1..] == [];
    }
  }

  /** Deleting `c` leaves no `c` behind and removes exactly as many
      characters as `s` has occurrences of `c`. */
  lemma {:induction false} WithoutLacks(s: string, c: char)
    ensures c !in Without(s, c)
    ensures |Without(s, c)| == |s| - Count(s, c)
  {
    if s != [] {
      WithoutLacks(s[1..], c);
    }
  }
}
