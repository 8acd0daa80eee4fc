/**
 * The few Python `str` operations the migration script's string logic is
 * built from, over `string` (a `seq<char>`):
 *   - `s.split(sep)` with a one-character separator,
 *   - `sep.join(parts)`,
 *   - `s.strip(chars)` and `s.strip()` (whitespace),
 *   - the substring test `piece in s`.
 */
module PyStr {

  /** Number of occurrences of `c` in `s`. */
  function CountOf(s: string, c: char): (n: nat)
    ensures n <= |s|
    ensures n == 0 <==> c !in s
  {
    if s == [] then 0
    else (if s[0] == c then 1 else 0) + CountOf(s[1..], c)
  }

  /**
   * `s.split(sep)`: the fields between the occurrences of `sep`. An empty
   * string gives one empty field, and every separator adds one field.
   */
  function Split(s: string, sep: char): (fields: seq<string>)
    ensures |fields| == CountOf(s, sep) + 1
    ensures forall i :: 0 <= i < |fields| ==> sep !in fields[i]
  {
    if s == [] then [[]]
    else
      var rest := Split(s[1..], sep);
      if s[0] == sep then [[]] + rest
      else [[s[0]] + rest[0]] + rest[1..]
  }

  /** `sep.join(parts)`: the parts with one `sep` between neighbours. */
  function Join(sep: char, parts: seq<string>): string
  {
    if |parts| == 0 then []
    else if |parts| == 1 then parts[0]
    else parts[0] + [sep] + Join(sep, parts[1..])
  }

  /** `parts[n:]` with Python's slice semantics: empty when `n` is past the end. */
  function Drop<T>(parts: seq<T>, n: nat): seq<T>
  {
    if |parts| <= n then [] else parts[n..]
  }

  /** Joining the fields of a split gives back the original string. */
  lemma {:induction false} JoinSplit(s: string, sep: char)
    ensures Join(sep, Split(s, sep)) == s
  {
    if s != [] {
      var rest := Split(s[1..], sep);
      JoinSplit(s[1..], sep);
      if s[0] == sep {
        assert Split(s, sep) == [[]] + rest;
        assert Join(sep, Split(s, sep)) == [] + [sep] + Join(sep, rest);
      } else {
        var fields := Split(s, sep);
        assert fields == [[s[0]] + rest[0]] + rest[1..];
        if |rest| == 1 {
          assert Join(sep, fields) == [s[0]] + rest[0];
        } else {
          assert fields[1..] == rest[1..];
          assert Join(sep, rest) == rest[0] + [sep] + Join(sep, rest[1..]);
          assert Join(sep, fields) == [s[0]] + rest[0] + [sep] + Join(sep, rest[1..]);
        }
      }
    }
  }

  /** Splitting the join of separator-free parts gives back the parts. */
  lemma {:induction false} SplitJoin(parts: seq<string>, sep: char)
    requires |parts| >= 1
    requires forall i :: 0 <= i < |parts| ==> sep !in parts[i]
    ensures Split(Join(sep, parts), sep) == parts
  {
    if |parts| == 1 {
      SplitNoSeparator(parts[0], sep);
    } else {
      SplitJoin(parts[1..], sep);
      SplitConcat(parts[0], sep, Join(sep, parts[1..]));
      assert Join(sep, parts) == parts[0] + [sep] + Join(sep, parts[1..]);
      assert [parts[0]] + parts[1..] == parts;
    }
  }

  /** A string without the separator is a single field. */
  lemma {:induction false} SplitNoSeparator(s: string, sep: char)
    requires sep !in s
    ensures Split(s, sep) == [s]
  {
    if s != [] {
      assert s[0] != sep;
      assert sep !in s[1..];
      SplitNoSeparator(s[1..], sep);
      assert [s[0]] + s[1..] == s;
    }
  }

  /** Splitting `a + [sep] + b` where `a` holds no separator: `a` is the first field. */
  lemma {:induction false} SplitConcat(a: string, sep: char, b: string)
    requires sep !in a
    ensures Split(a + [sep] + b, sep) == [a] + Split(b, sep)
  {
    if a == [] {
      assert [] + [sep] + b == [sep] + b;
      assert ([sep] + b)[1..] == b;
    } else {
      var s := a + [sep] + b;
      assert s[0] == a[0] && s[0] != sep;
      assert s[1..] == a[1..] + [sep] + b;
      assert sep !in a[1..];
      SplitConcat(a[1..], sep, b);
      assert [a[0]] + a[1..] == a;
    }
  }

  /** A string that ends with the separator has an empty last field. */
  lemma {:induction false} SplitTrailingSeparator(s: string, sep: char)
    requires |s| > 0 && s[|s| - 1] == sep
    ensures Split(s, sep)[|Split(s, sep)| - 1] == []
  {
    if |s| == 1 {
      assert s[1..] == [];
    } else {
      assert s[1..][|s[1..]| - 1] == sep;
      SplitTrailingSeparator(s[1..], sep);
    }
  }

  /** Counting over a prefix of `s` one longer than a prefix of its tail. */
  lemma CountOfPrefix(s: string, c: char, j: nat)
    requires j < |s|
    ensures CountOf(s[..j + 1], c) == (if s[0] == c then 1 else 0) + CountOf(s[1..][..j], c)
  {
    assert s[..j + 1][1..] == s[1..][..j];
  }

  /**
   * `sep.join(s.split(sep)[n:])` for `1 <= n` is the text after the `n`-th
   * separator of `s`, when `s` has that many; `i` is that separator's index.
   */
  lemma {:induction false} JoinDropSplit(s: string, sep: char, n: nat) returns (i: nat)
    requires 1 <= n <= CountOf(s, sep)
    ensures i < |s| && s[i] == sep && CountOf(s[..i], sep) == n - 1
    ensures Join(sep, Drop(Split(s, sep), n)) == s[i + 1..]
  {
    var t := s[1..];
    var rest := Split(t, sep);
    var fields := Split(s, sep);
    if s[0] == sep && n == 1 {
      assert fields == [[]] + rest;
      assert Drop(fields, 1) == rest;
      JoinSplit(t, sep);
      assert s[..0] == [];
      i := 0;
    } else {
      var m := if s[0] == sep then n - 1 else n;
      assert Drop(fields, n) == Drop(rest, m) by {
        if s[0] == sep {
          assert fields == [[]] + rest;
        } else {
          assert fields == [[s[0]] + rest[0]] + rest[1..];
        }
      }
      var j := JoinDropSplit(t, sep, m);
      CountOfPrefix(s, sep, j);
      assert s[j + 2..] == t[j + 1..];
      i := j + 1;
    }
  }

  /** Number of leading characters of `s` that are in `cs`. */
  function LeadingCount(s: string, cs: set<char>): (n: nat)
    ensures n <= |s|
    ensures forall k :: 0 <= k < n ==> s[k] in cs
    ensures n < |s| ==> s[n] !in cs
  {
    if s != [] && s[0] in cs then 1 + LeadingCount(s[1..], cs) else 0
  }

  /** Number of trailing characters of `s` that are in `cs`. */
  function TrailingCount(s: string, cs: set<char>): (n: nat)
    ensures n <= |s|
    ensures forall k :: |s| - n <= k < |s| ==> s[k] in cs
    ensures n < |s| ==> s[|s| - 1 - n] !in cs
  {
    if s != [] && s[|s| - 1] in cs then 1 + TrailingCount(s[..|s| - 1], cs) else 0
  }

  /**
   * `s.strip(chars)`: `s` without its leading and trailing characters from
   * `cs`. The result is the middle part of `s` left once every character of
   * `cs` is removed from both ends, and it neither starts nor ends with one.
   */
  function Strip(s: string, cs: set<char>): (r: string)
    ensures |r| <= |s|
    ensures r != [] ==> r[0] !in cs && r[|r| - 1] !in cs
    ensures r == [] <==> forall k :: 0 <= k < |s| ==> s[k] in cs
    ensures exists i :: 0 <= i <= |s| - |r| && OccursAt(r, s, i)
                        && (forall k :: 0 <= k < i ==> s[k] in cs)
                        && (forall k :: i + |r| <= k < |s| ==> s[k] in cs)
  {
    var a := LeadingCount(s, cs);
    if a == |s| then
      assert OccursAt([], s, |s|);
      []
    else
      var b := TrailingCount(s, cs);
      assert a < |s| - b;
      assert OccursAt(s[a..|s| - b], s, a);
      s[a..|s| - b]
  }

  /** A string that neither starts nor ends with a character of `cs` is its own strip. */
  lemma StripUnchanged(s: string, cs: set<char>)
    requires s != [] ==> s[0] !in cs && s[|s| - 1] !in cs
    ensures Strip(s, cs) == s
  {
    if s != [] {
      assert LeadingCount(s, cs) == 0 && TrailingCount(s, cs) == 0;
      assert s[0..|s|] == s;
    }
  }

  /** The characters Python's `str.strip()` removes when given no argument (`str.isspace`). */
  const Whitespace: set<char> :=
    {'\U{9}', '\U{A}', '\U{B}', '\U{C}', '\U{D}', '\U{1C}', '\U{1D}', '\U{1E}',
     '\U{1F}', '\U{20}', '\U{85}', '\U{A0}', '\U{1680}', '\U{2000}', '\U{2001}', '\U{2002}',
     '\U{2003}', '\U{2004}', '\U{2005}', '\U{2006}', '\U{2007}', '\U{2008}', '\U{2009}', '\U{200A}',
     '\U{2028}', '\U{2029}', '\U{202F}', '\U{205F}', '\U{3000}'}

  /** `piece` occurs in `s` starting at index `i`. */
  predicate OccursAt(piece: string, s: string, i: nat)
  {
    i + |piece| <= |s| && s[i..i + |piece|] == piece
  }

  /** `piece in s`: `piece` occurs somewhere in `s`; the empty piece occurs in every string. */
  predicate IsSubstring(piece: string, s: string)
  {
    exists i :: 0 <= i <= |s| && OccursAt(piece, s, i)
  }

  /** A piece holding a character the string lacks is not a substring of it. */
  lemma MissingCharNotSubstring(piece: string, s: string, c: char)
    requires c in piece && c !in s
    ensures !IsSubstring(piece, s)
  {
    var k :| 0 <= k < |piece| && piece[k] == c;
    forall i | 0 <= i <= |s| ensures !OccursAt(piece, s, i) {
      if i + |piece| <= |s| {
        assert s[i..i + |piece|][k] == s[i + k];
      }
    }
  }

  /** The empty piece is a substring of every string, as `"" in s` is always true. */
  lemma EmptyIsSubstring(s: string)
    ensures IsSubstring([], s)
  {
    assert OccursAt([], s, 0);
  }
}
