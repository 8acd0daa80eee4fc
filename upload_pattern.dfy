/**
 * The regular expression the mapper splits URLs on,
 *
 *     (\bimage\b|\bvideo\b|\braw\b)/upload/v[0-9]+/
 *
 * and the last element of `re.split(pattern, url)`: the text after the last
 * match of a left-to-right scan for non-overlapping matches, or the whole
 * URL when nothing matches.
 */
module UploadPattern {
  import opened PyStr

  datatype Option<T> = None | Some(value: T)

  /** The text between the resource type and the version number. */
  const UploadInfix: string := "/upload/v"

  /** A character `\w` matches (ASCII letters, digits and `_`). */
  predicate IsWordChar(c: char)
  {
    'a' <= c <= 'z' || 'A' <= c <= 'Z' || '0' <= c <= '9' || c == '_'
  }

  /** A character `[0-9]` matches. */
  predicate IsDigit(c: char)
  {
    '0' <= c <= '9'
  }

  /**
   * `\b` just before a word character at position `i`: the position is the
   * start of the string or follows a non-word character.
   */
  predicate BoundaryBefore(s: string, i: nat)
    requires i <= |s|
  {
    i == 0 || !IsWordChar(s[i - 1])
  }

  /** Length of the resource-type name (`image`, `video` or `raw`) at position `i`, or 0. */
  function TypeNameAt(s: string, i: nat): (t: nat)
    ensures t == 5 ==> OccursAt("image", s, i) || OccursAt("video", s, i)
    ensures t == 3 ==> OccursAt("raw", s, i)
    ensures t == 0 ==> !OccursAt("image", s, i) && !OccursAt("video", s, i) && !OccursAt("raw", s, i)
    ensures t in {0, 3, 5}
  {
    if OccursAt("image", s, i) then 5
    else if OccursAt("video", s, i) then 5
    else if OccursAt("raw", s, i) then 3
    else 0
  }

  /** Number of consecutive digits in `s` from position `i` on. */
  function DigitRun(s: string, i: nat): (n: nat)
    requires i <= |s|
    ensures i + n <= |s|
    ensures forall k :: i <= k < i + n ==> IsDigit(s[k])
    ensures i + n < |s| ==> !IsDigit(s[i + n])
    decreases |s| - i
  {
    if i < |s| && IsDigit(s[i]) then 1 + DigitRun(s, i + 1) else 0
  }

  /**
   * The end of the match of the pattern that starts at position `i`, if one
   * does. `[0-9]+` is greedy and a digit is never `/`, so a match, when there
   * is one, takes the whole run of digits and its end is unique.
   */
  function MatchAt(s: string, i: nat): (m: Option<nat>)
    requires i <= |s|
    ensures m.Some? ==> i < m.value <= |s|
  {
    var t := TypeNameAt(s, i);
    if t == 0 || !BoundaryBefore(s, i) || !OccursAt(UploadInfix, s, i + t) then None
    else
      var d := i + t + |UploadInfix|;
      var n := DigitRun(s, d);
      if n == 0 || d + n >= |s| || s[d + n] != '/' then None
      else Some(d + n + 1)
  }

  /**
   * The last piece of `re.split`: scanning from position `i`, where `from`
   * is where the current piece began; a match ending at `e` starts a new
   * piece at `e` and the scan resumes there.
   */
  function TailFrom(s: string, i: nat, from: nat): string
    requires from <= i <= |s|
    decreases |s| - i
  {
    if i == |s| then s[from..]
    else match MatchAt(s, i)
      case Some(e) => TailFrom(s, e, e)
      case None => TailFrom(s, i + 1, from)
  }

  /** `re.split(pattern, s)[-1]`. */
  function LastPiece(s: string): string
  {
    TailFrom(s, 0, 0)
  }

  /* ---------- What a match is, stated without the scanner ---------- */

  /** `w` is `<type>/upload/v<digits>/` for the resource type `t`. */
  predicate IsSegmentOf(w: string, t: string)
  {
    && |w| > |t| + |UploadInfix| + 1
    && w[..|t| + |UploadInfix|] == t + UploadInfix
    && w[|w| - 1] == '/'
    && forall k :: |t| + |UploadInfix| <= k < |w| - 1 ==> IsDigit(w[k])
  }

  /** `w` is a text the pattern matches, apart from the `\b` before it. */
  predicate IsUploadSegment(w: string)
  {
    IsSegmentOf(w, "image") || IsSegmentOf(w, "video") || IsSegmentOf(w, "raw")
  }

  /** Some match of the pattern starts somewhere in `s`. */
  ghost predicate HasMatch(s: string)
  {
    exists p :: 0 <= p <= |s| && MatchAt(s, p).Some?
  }

  /** The pieces of a match, assembled: the matched text is a segment of its type. */
  lemma SegmentFromParts(s: string, p: nat, name: string, n: nat)
    requires OccursAt(name, s, p) && OccursAt(UploadInfix, s, p + |name|)
    requires n >= 1 && p + |name| + |UploadInfix| + n < |s|
    requires forall k :: p + |name| + |UploadInfix| <= k < p + |name| + |UploadInfix| + n ==> IsDigit(s[k])
    requires s[p + |name| + |UploadInfix| + n] == '/'
    ensures IsSegmentOf(s[p..p + |name| + |UploadInfix| + n + 1], name)
  {
    var d := p + |name| + |UploadInfix|;
    var w := s[p..d + n + 1];
    assert w[..|name| + |UploadInfix|] == s[p..p + |name|] + s[p + |name|..d];
    forall k | |name| + |UploadInfix| <= k < |w| - 1 ensures IsDigit(w[k]) {
      assert w[k] == s[p + k];
    }
  }

  /** A segment of type `name`, taken apart. */
  lemma PartsFromSegment(s: string, p: nat, e: nat, name: string)
    requires p <= e <= |s| && IsSegmentOf(s[p..e], name)
    ensures OccursAt(name, s, p) && OccursAt(UploadInfix, s, p + |name|)
    ensures s[e - 1] == '/'
    ensures forall k :: p + |name| + |UploadInfix| <= k < e - 1 ==> IsDigit(s[k])
  {
    var w := s[p..e];
    var t := |name|;
    var head := w[..t + |UploadInfix|];
    assert head == name + UploadInfix;
    forall k | 0 <= k < t ensures s[p + k] == name[k] {
      assert s[p + k] == head[k];
    }
    assert s[p..p + t] == name;
    forall k | 0 <= k < |UploadInfix| ensures s[p + t + k] == UploadInfix[k] {
      assert s[p + t + k] == head[t + k];
    }
    assert s[p + t..p + t + |UploadInfix|] == UploadInfix;
    assert s[e - 1] == w[|w| - 1];
    forall k | p + t + |UploadInfix| <= k < e - 1 ensures IsDigit(s[k]) {
      assert s[k] == w[k - p];
    }
  }

  /** The resource type named at `p` when a match starts there. */
  function MatchedType(s: string, p: nat): (name: string)
    requires p <= |s| && MatchAt(s, p).Some?
    ensures |name| == TypeNameAt(s, p) && OccursAt(name, s, p)
    ensures name == "image" || name == "video" || name == "raw"
  {
    if OccursAt("image", s, p) then "image" else if OccursAt("video", s, p) then "video" else "raw"
  }

  /** A match from `p` to `e` is a segment after a word boundary. */
  lemma MatchIsSegment(s: string, p: nat, e: nat)
    requires p <= e <= |s| && MatchAt(s, p) == Some(e)
    ensures BoundaryBefore(s, p) && IsUploadSegment(s[p..e])
  {
    var name := MatchedType(s, p);
    var d := p + |name| + |UploadInfix|;
    var n := DigitRun(s, d);
    assert OccursAt(UploadInfix, s, p + |name|);
    assert n >= 1 && d + n < |s| && s[d + n] == '/' && e == d + n + 1;
    SegmentFromParts(s, p, name, n);
  }

  /** The resource-type name at `p` is recognised as such. */
  lemma TypeNameAtOf(s: string, p: nat, name: string)
    requires name == "image" || name == "video" || name == "raw"
    requires OccursAt(name, s, p)
    ensures TypeNameAt(s, p) == |name|
  {
    assert s[p] == name[0];
    if name != "image" {
      assert !OccursAt("image", s, p) by {
        if p + 5 <= |s| {
          assert s[p..p + 5][0] == s[p];
        }
      }
    }
    if name == "raw" {
      assert !OccursAt("video", s, p) by {
        if p + 5 <= |s| {
          assert s[p..p + 5][0] == s[p];
        }
      }
    }
  }

  /** A segment of type `name` after a word boundary is a match. */
  lemma SegmentOfIsMatch(s: string, p: nat, e: nat, name: string)
    requires name == "image" || name == "video" || name == "raw"
    requires p <= e <= |s| && BoundaryBefore(s, p) && IsSegmentOf(s[p..e], name)
    ensures MatchAt(s, p) == Some(e)
  {
    PartsFromSegment(s, p, e, name);
    TypeNameAtOf(s, p, name);
    var d := p + |name| + |UploadInfix|;
    assert DigitRun(s, d) == e - 1 - d;
  }

  /** A segment after a word boundary is a match. */
  lemma SegmentIsMatch(s: string, p: nat, e: nat)
    requires p <= e <= |s| && BoundaryBefore(s, p) && IsUploadSegment(s[p..e])
    ensures MatchAt(s, p) == Some(e)
  {
    if IsSegmentOf(s[p..e], "image") {
      SegmentOfIsMatch(s, p, e, "image");
    } else if IsSegmentOf(s[p..e], "video") {
      SegmentOfIsMatch(s, p, e, "video");
    } else {
      SegmentOfIsMatch(s, p, e, "raw");
    }
  }

  /**
   * `MatchAt` is the pattern: a match runs from `p` to `e` exactly when the
   * text between is a resource type, `/upload/v`, one or more digits and `/`,
   * and `p` is at a word boundary.
   */
  lemma MatchAtIsPattern(s: string, p: nat, e: nat)
    requires p <= e <= |s|
    ensures MatchAt(s, p) == Some(e) <==> BoundaryBefore(s, p) && IsUploadSegment(s[p..e])
  {
    if MatchAt(s, p) == Some(e) {
      MatchIsSegment(s, p, e);
    }
    if BoundaryBefore(s, p) && IsUploadSegment(s[p..e]) {
      SegmentIsMatch(s, p, e);
    }
  }

  /**
   * What a match needs at its first two positions: a word boundary, then
   * `i` or `r`, or `v` followed by `i`.
   */
  predicate CanStartMatch(s: string, q: nat)
  {
    && q + 1 < |s|
    && BoundaryBefore(s, q)
    && (s[q] == 'i' || (s[q] == 'v' && s[q + 1] == 'i') || s[q] == 'r')
  }

  /** Every match starts where a match can start. */
  lemma MatchStart(s: string, q: nat)
    requires q <= |s| && MatchAt(s, q).Some?
    ensures CanStartMatch(s, q)
  {
    var name := MatchedType(s, q);
    assert s[q] == name[0] && s[q + 1] == name[1];
  }

  /** Every character of a resource-type name is a word character. */
  lemma TypeNameIsWord(name: string, j: nat)
    requires name == "image" || name == "video" || name == "raw"
    requires j < |name|
    ensures IsWordChar(name[j])
  {
    assert j == 0 || j == 1 || j == 2 || j == 3 || j == 4;
  }

  /**
   * Inside `/upload/v` only two characters follow a non-word character: the
   * `u` after the first `/` and the `v` after the second.
   */
  lemma InfixAfterNonWord(j: nat)
    requires 1 <= j < |UploadInfix|
    ensures IsWordChar(UploadInfix[j - 1]) || (j == 1 && UploadInfix[j] == 'u') || (j == 8 && UploadInfix[j] == 'v')
  {
    assert j == 1 || j == 2 || j == 3 || j == 4 || j == 5 || j == 6 || j == 7 || j == 8;
  }

  /** Matches never overlap: none starts strictly inside another. */
  lemma MatchesDoNotOverlap(s: string, p: nat, q: nat)
    requires p < q <= |s| && MatchAt(s, p).Some? && q < MatchAt(s, p).value
    ensures MatchAt(s, q).None?
  {
    var name := MatchedType(s, p);
    var t := |name|;
    var a := p + t;
    var d := a + |UploadInfix|;
    var n := DigitRun(s, d);
    assert OccursAt(UploadInfix, s, a);
    assert n >= 1 && MatchAt(s, p).value == d + n + 1;
    assert !CanStartMatch(s, q) by {
      if q <= a {
        NoStartInsideName(s, p, name, q);
      } else if q < d {
        NoStartInsideInfix(s, a, q);
      } else {
        NoStartInsideDigits(s, a, n, q);
      }
    }
    if MatchAt(s, q).Some? {
      MatchStart(s, q);
    }
  }

  /** Inside a resource-type name the previous character is a letter, so no match starts there. */
  lemma NoStartInsideName(s: string, p: nat, name: string, q: nat)
    requires name == "image" || name == "video" || name == "raw"
    requires OccursAt(name, s, p) && p < q <= p + |name|
    ensures !CanStartMatch(s, q)
  {
    assert s[q - 1] == s[p..p + |name|][q - 1 - p];
    TypeNameIsWord(name, q - 1 - p);
  }

  /**
   * Inside `/upload/v`, followed by a digit, no match starts: only the `u`
   * and the `v` follow a non-word character, and the `v` is not followed by `i`.
   */
  lemma NoStartInsideInfix(s: string, a: nat, q: nat)
    requires OccursAt(UploadInfix, s, a) && a < q < a + |UploadInfix|
    requires a + |UploadInfix| < |s| && IsDigit(s[a + |UploadInfix|])
    ensures !CanStartMatch(s, q)
  {
    var j := q - a;
    assert s[q - 1] == s[a..a + |UploadInfix|][j - 1];
    assert s[q] == s[a..a + |UploadInfix|][j];
    InfixAfterNonWord(j);
  }

  /** At the digits after `/upload/v`, the previous character is the `v` or a digit. */
  lemma NoStartInsideDigits(s: string, a: nat, n: nat, q: nat)
    requires OccursAt(UploadInfix, s, a)
    requires a + |UploadInfix| <= q <= a + |UploadInfix| + n <= |s|
    requires forall k :: a + |UploadInfix| <= k < a + |UploadInfix| + n ==> IsDigit(s[k])
    ensures !CanStartMatch(s, q)
  {
    if q == a + |UploadInfix| {
      assert s[q - 1] == s[a..a + |UploadInfix|][|UploadInfix| - 1];
    } else {
      assert IsDigit(s[q - 1]);
    }
  }

  /** With no match at or after `i`, the scan's last piece is the current one. */
  lemma {:induction false} TailWithoutMatch(s: string, i: nat, from: nat)
    requires from <= i <= |s|
    requires forall q :: i <= q <= |s| ==> MatchAt(s, q).None?
    ensures TailFrom(s, i, from) == s[from..]
    decreases |s| - i
  {
    if i < |s| {
      TailWithoutMatch(s, i + 1, from);
    }
  }

  /**
   * With a match at or after `i`, the scan's last piece is the text after
   * a match at some `p >= i` after which no match starts.
   */
  lemma {:induction false} TailAfterLastMatch(s: string, i: nat, from: nat, q0: nat) returns (p: nat)
    requires from <= i <= q0 <= |s| && MatchAt(s, q0).Some?
    ensures i <= p < |s| && MatchAt(s, p).Some?
    ensures TailFrom(s, i, from) == s[MatchAt(s, p).value..]
    ensures forall q :: p < q <= |s| ==> MatchAt(s, q).None?
    decreases |s| - i
  {
    match MatchAt(s, i)
    case Some(e) =>
      if exists q :: e <= q <= |s| && MatchAt(s, q).Some? {
        var q1 :| e <= q1 <= |s| && MatchAt(s, q1).Some?;
        p := TailAfterLastMatch(s, e, e, q1);
      } else {
        TailWithoutMatch(s, e, e);
        forall q | i < q < e ensures MatchAt(s, q).None? {
          MatchesDoNotOverlap(s, i, q);
        }
        p := i;
      }
    case None =>
      assert i != q0;
      p := TailAfterLastMatch(s, i + 1, from, q0);
  }

  /**
   * `re.split(pattern, s)[-1]` is the whole of `s` when the pattern does not
   * occur in it, and otherwise the text after the last match: the match at
   * `p` after which no match starts.
   */
  lemma LastPieceSpec(s: string)
    ensures !HasMatch(s) ==> LastPiece(s) == s
    ensures HasMatch(s) ==>
      exists p :: 0 <= p < |s| && MatchAt(s, p).Some? && LastPiece(s) == s[MatchAt(s, p).value..]
                  && forall q :: p < q <= |s| ==> MatchAt(s, q).None?
  {
    if HasMatch(s) {
      var q0 :| 0 <= q0 <= |s| && MatchAt(s, q0).Some?;
      var p := TailAfterLastMatch(s, 0, 0, q0);
    } else {
      TailWithoutMatch(s, 0, 0);
    }
  }

  /** The last piece is the whole string exactly when the pattern does not occur. */
  lemma LastPieceIsWholeIff(s: string)
    ensures LastPiece(s) == s <==> !HasMatch(s)
  {
    LastPieceSpec(s);
  }

  /** The last piece is always a suffix of the string. */
  lemma LastPieceIsSuffix(s: string)
    ensures |LastPiece(s)| <= |s| && LastPiece(s) == s[|s| - |LastPiece(s)|..]
  {
    LastPieceSpec(s);
  }
}
