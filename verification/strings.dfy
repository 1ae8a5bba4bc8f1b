/**
 * The handful of Go `strings` operations the crawler relies on, over
 * `string` = `seq<char>` (Unicode scalar values).
 */
module Strings {

  /** Number of occurrences of `c` in `s`. */
  function Count(s: string, c: char): nat
  {
    if |s| == 0 then 0
    else (if s[0] == c then 1 else 0) + Count(s[1..], c)
  }

  lemma {:induction false} CountZero(s: string, c: char)
    ensures Count(s, c) == 0 <==> c !in s
  {
    if |s| > 0 {
      CountZero(s[1..], c);
      assert s == [s[0]] + s[1..];
    }
  }

  /** Go's `strings.Join` with a one-character separator. */
  function Join(parts: seq<string>, sep: char): string
  {
    if |parts| == 0 then ""
    else if |parts| == 1 then parts[0]
    else parts[0] + [sep] + Join(parts[1..], sep)
  }

  /**
   * Go's `strings.Split` with a one-character separator: the maximal
   * separator-free pieces of `s`, always at least one (the empty string
   * splits into one empty piece).
   */
  function Split(s: string, sep: char): (parts: seq<string>)
    ensures |parts| == Count(s, sep) + 1
    ensures forall k :: 0 <= k < |parts| ==> sep !in parts[k]
    decreases |s|
  {
    if |s| == 0 then [""]
    else if s[0] == sep then [""] + Split(s[1..], sep)
    else
      var rest := Split(s[1..], sep);
      [[s[0]] + rest[0]] + rest[1..]
  }

  /** Joining the pieces of a split gives back the original string. */
  lemma {:induction false} SplitThenJoin(s: string, sep: char)
    ensures Join(Split(s, sep), sep) == s
    decreases |s|
  {
    if |s| > 0 {
      var rest := Split(s[1..], sep);
      SplitThenJoin(s[1..], sep);
      if s[0] == sep {
        assert Split(s, sep) == [""] + rest;
        assert ([""] + rest)[1..] == rest;
      } else {
        var parts := [[s[0]] + rest[0]] + rest[1..];
        assert Split(s, sep) == parts;
        if |rest| == 1 {
          assert Join(rest, sep) == rest[0];
        } else {
          assert parts[1..] == rest[1..];
          assert Join(rest, sep) == rest[0] + [sep] + Join(rest[1..], sep);
        }
        assert s == [s[0]] + s[1..];
      }
    }
  }

  /** Splitting a join of separator-free pieces gives back the pieces. */
  lemma {:induction false} JoinThenSplit(parts: seq<string>, sep: char)
    requires |parts| > 0
    requires forall k :: 0 <= k < |parts| ==> sep !in parts[k]
    ensures Split(Join(parts, sep), sep) == parts
    decreases |parts|, |parts[0]|
  {
    if |parts| == 1 {
      SplitFree(parts[0], sep);
    } else if |parts[0]| == 0 {
      var tail := Join(parts[1..], sep);
      assert Join(parts, sep) == [sep] + tail;
      SplitAfterSeparator(tail, sep);
      JoinThenSplit(parts[1..], sep);
      assert parts == [""] + parts[1..];
    } else {
      var p := parts[0];
      var shorter := [p[1..]] + parts[1..];
      assert shorter[1..] == parts[1..];
      assert forall k :: 1 <= k < |shorter| ==> shorter[k] == parts[k];
      assert sep !in shorter[0];
      JoinThenSplit(shorter, sep);
      var j := Join(parts, sep);
      assert j == [p[0]] + Join(shorter, sep);
      SplitAfterOther(p[0], Join(shorter, sep), sep);
      assert [p[0]] + p[1..] == p;
      assert [p] + parts[1..] == parts;
    }
  }

  /** A leading separator opens an empty first piece. */
  lemma SplitAfterSeparator(s: string, sep: char)
    ensures Split([sep] + s, sep) == [""] + Split(s, sep)
  {
    assert ([sep] + s)[1..] == s;
  }

  /** A leading non-separator joins the first piece. */
  lemma SplitAfterOther(c: char, s: string, sep: char)
    requires c != sep
    ensures Split([c] + s, sep) == [[c] + Split(s, sep)[0]] + Split(s, sep)[1..]
  {
    assert ([c] + s)[1..] == s;
  }

  /** Joining two non-empty lists of pieces puts one separator between their joins. */
  lemma {:induction false} JoinAppend(p: seq<string>, q: seq<string>, sep: char)
    requires |p| > 0 && |q| > 0
    ensures Join(p + q, sep) == Join(p, sep) + [sep] + Join(q, sep)
    decreases |p|
  {
    if |p| == 1 {
      assert (p + q)[1..] == q;
    } else {
      assert (p + q)[1..] == p[1..] + q;
      JoinAppend(p[1..], q, sep);
    }
  }

  /** Splitting at a separator splits the two sides apart: `Split` of `a;b` is `Split(a)` then `Split(b)`. */
  lemma SplitAppend(a: string, b: string, sep: char)
    ensures Split(a + [sep] + b, sep) == Split(a, sep) + Split(b, sep)
  {
    var p, q := Split(a, sep), Split(b, sep);
    SplitThenJoin(a, sep);
    SplitThenJoin(b, sep);
    JoinAppend(p, q, sep);
    PiecesFree(p, q, sep);
    JoinThenSplit(p + q, sep);
  }

  lemma PiecesFree(p: seq<string>, q: seq<string>, sep: char)
    requires forall k :: 0 <= k < |p| ==> sep !in p[k]
    requires forall k :: 0 <= k < |q| ==> sep !in q[k]
    ensures forall k :: 0 <= k < |p + q| ==> sep !in (p + q)[k]
  {
    assert forall k :: 0 <= k < |p + q| ==> (p + q)[k] == (if k < |p| then p[k] else q[k - |p|]);
  }

  /** A separator-free string splits into itself. */
  lemma {:induction false} SplitFree(s: string, sep: char)
    requires sep !in s
    ensures Split(s, sep) == [s]
    decreases |s|
  {
    if |s| > 0 {
      assert s[0] != sep;
      assert sep !in s[1..];
      SplitFree(s[1..], sep);
      assert [s[0]] + s[1..] == s;
    }
  }

  /**
   * Go's `unicode.IsSpace`: the Latin-1 spaces and the other characters
   * of the Unicode White_Space property.
   */
  predicate IsSpace(c: char)
  {
    || c == '\t' || c == '\n' || c == '\U{000B}' || c == '\U{000C}' || c == '\r' || c == ' '
    || c == '\U{0085}' || c == '\U{00A0}' || c == '\U{1680}'
    || ('\U{2000}' <= c <= '\U{200A}')
    || c == '\U{2028}' || c == '\U{2029}' || c == '\U{202F}' || c == '\U{205F}' || c == '\U{3000}'
  }

  predicate AllSpace(s: string)
  {
    forall k :: 0 <= k < |s| ==> IsSpace(s[k])
  }

  /** `s` has no white space at either end. */
  predicate Trimmed(s: string)
  {
    |s| > 0 ==> !IsSpace(s[0]) && !IsSpace(s[|s| - 1])
  }

  /** Drops the leading white space: what is dropped is all space, what is kept starts with a non-space. */
  function TrimLeadingSpace(s: string): (r: string)
    ensures |r| <= |s| && r == s[|s| - |r|..]
    ensures AllSpace(s[..|s| - |r|])
    ensures |r| > 0 ==> !IsSpace(r[0])
    decreases |s|
  {
    if |s| > 0 && IsSpace(s[0]) then TrimLeadingSpace(s[1..]) else s
  }

  /** Drops the trailing white space: what is dropped is all space, what is kept ends with a non-space. */
  function TrimTrailingSpace(s: string): (r: string)
    ensures |r| <= |s| && r == s[..|r|]
    ensures AllSpace(s[|r|..])
    ensures |r| > 0 ==> !IsSpace(r[|r| - 1])
    decreases |s|
  {
    if |s| > 0 && IsSpace(s[|s| - 1]) then TrimTrailingSpace(s[..|s| - 1]) else s
  }

  /** `r` sits at position `i` of `s` with nothing but white space on either side. */
  predicate SpaceAround(s: string, i: nat, r: string)
  {
    && i + |r| <= |s|
    && s[i..i + |r|] == r
    && AllSpace(s[..i])
    && AllSpace(s[i + |r|..])
  }

  /**
   * Go's `strings.TrimSpace`: `s` with its leading and trailing white
   * space removed, and nothing else.
   */
  function TrimSpace(s: string): (r: string)
    ensures Trimmed(r)
    ensures exists i: nat :: SpaceAround(s, i, r)
  {
    var l := TrimLeadingSpace(s);
    var r := TrimTrailingSpace(l);
    SpaceAroundParts(s, l, r);
    assert |r| > 0 ==> r[0] == l[0];
    r
  }

  /** A suffix of `s` after white space, cut before white space, sits in `s` with only white space around it. */
  lemma SpaceAroundParts(s: string, l: string, r: string)
    requires |l| <= |s| && l == s[|s| - |l|..] && AllSpace(s[..|s| - |l|])
    requires |r| <= |l| && r == l[..|r|] && AllSpace(l[|r|..])
    ensures SpaceAround(s, |s| - |l|, r)
  {
    var i := |s| - |l|;
    assert s[i..i + |r|] == r;
    assert s[i + |r|..] == l[|r|..];
  }

  /** TrimSpace is determined by its contract: a non-space core between two runs of space. */
  lemma TrimSpaceUnique(a: string, core: string, b: string)
    requires AllSpace(a) && AllSpace(b) && Trimmed(core)
    ensures TrimSpace(a + core + b) == core
  {
    var s := a + core + b;
    var r := TrimSpace(s);
    var i: nat :| SpaceAround(s, i, r);
    SpaceAroundUnique(s, i, r, |a|, core);
  }

  /** Two trimmed strings each surrounded by white space in `s` are the same string. */
  lemma SpaceAroundUnique(s: string, i: nat, r: string, j: nat, t: string)
    requires SpaceAround(s, i, r) && Trimmed(r)
    requires SpaceAround(s, j, t) && Trimmed(t)
    ensures r == t
  {
    if |r| > 0 {
      assert s[i] == r[0];
    }
    if |t| > 0 {
      assert s[j] == t[0];
    }
  }

  /** A string with no white space at its ends is its own trim. */
  lemma TrimSpaceOfTrimmed(s: string)
    requires Trimmed(s)
    ensures TrimSpace(s) == s
  {
    assert s == [] + s + [];
    TrimSpaceUnique([], s, []);
  }

  /** Trimming is idempotent. */
  lemma TrimSpaceIdempotent(s: string)
    ensures TrimSpace(TrimSpace(s)) == TrimSpace(s)
  {
    var r := TrimSpace(s);
    assert r == [] + r + [];
    TrimSpaceUnique([], r, []);
  }

  /** `t` occurs in `s` at position `i`. */
  predicate OccursAt(s: string, t: string, i: nat)
  {
    i + |t| <= |s| && s[i..i + |t|] == t
  }

  /** Go's `strings.Contains`: `t` occurs somewhere in `s`. */
  function Contains(s: string, t: string): (r: bool)
    ensures r <==> exists i: nat :: OccursAt(s, t, i)
    decreases |s|
  {
    if |t| > |s| then false
    else if s[..|t|] == t then
      assert OccursAt(s, t, 0);
      true
    else if |s| == 0 then false
    else
      var r := Contains(s[1..], t);
      assert r ==> exists i: nat :: OccursAt(s, t, i) by {
        if r {
          var i: nat :| OccursAt(s[1..], t, i);
          OccursShift(s, t, i);
        }
      }
      assert (exists i: nat :: OccursAt(s, t, i)) ==> r by {
        if exists i: nat :: OccursAt(s, t, i) {
          var i: nat :| OccursAt(s, t, i);
          assert i != 0;
          OccursShift(s, t, i - 1);
        }
      }
      r
  }

  /** An occurrence one position further in `s` is an occurrence in its tail. */
  lemma OccursShift(s: string, t: string, i: nat)
    requires |s| > 0
    ensures OccursAt(s, t, i + 1) <==> OccursAt(s[1..], t, i)
  {
    if i + 1 + |t| <= |s| {
      assert s[i + 1..i + 1 + |t|] == s[1..][i..i + |t|];
    }
  }
}
