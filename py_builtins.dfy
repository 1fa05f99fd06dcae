/**
 * The few Python built-ins the GUGiK client's pure logic relies on, with
 * Python's own semantics: `str.split` on a one-character separator, the
 * substring test `t in s`, `str.replace` of one character by another,
 * indexing with `[-1]`, and the order-preserving de-duplication
 * `list(dict.fromkeys(xs))`.
 */
module PyBuiltins {

  /** Python's `None` / value, as used by lxml for a missing element or text. */
  datatype Option<T> = None | Some(value: T)

  // ---------------------------------------------------------------------------
  // Substring test: `t in s`
  // ---------------------------------------------------------------------------

  /** Python's `t in s` for strings: `t` occurs somewhere in `s` (case-sensitive). */
  predicate Contains(s: string, t: string)
    decreases |s|
  {
    t <= s || (|s| > 0 && Contains(s[1..], t))
  }

  /** `t` occurs in `s` starting at index `i`. */
  ghost predicate OccursAt(s: string, t: string, i: int)
  {
    0 <= i && i + |t| <= |s| && s[i..i + |t|] == t
  }

  /** `Contains` is exactly "occurs at some position". */
  lemma {:induction false} ContainsIff(s: string, t: string)
    ensures Contains(s, t) <==> exists i :: OccursAt(s, t, i)
    decreases |s|
  {
    if t <= s {
      assert OccursAt(s, t, 0);
    } else if |s| == 0 {
      assert |t| > 0;
    } else {
      ContainsIff(s[1..], t);
      if Contains(s[1..], t) {
        var i :| OccursAt(s[1..], t, i);
        assert s[1..][i..i + |t|] == s[i + 1..i + 1 + |t|];
        assert OccursAt(s, t, i + 1);
      }
      if exists i :: OccursAt(s, t, i) {
        var i :| OccursAt(s, t, i);
        assert i != 0;
        assert s[1..][i - 1..i - 1 + |t|] == s[i..i + |t|];
        assert OccursAt(s[1..], t, i - 1);
      }
    }
  }

  /** Python's `s.endswith(t)`. */
  predicate EndsWith(s: string, t: string)
  {
    |t| <= |s| && s[|s| - |t|..] == t
  }

  /** A suffix lacks every character the whole string lacks. */
  lemma SuffixLacks(s: string, t: string, c: char)
    requires EndsWith(s, t) && c !in s
    ensures c !in t
  {
    assert t == s[|s| - |t|..];
  }

  lemma EndsWithAfterPrefix(p: string, t: string)
    ensures EndsWith(p + t, t)
  {
    assert (p + t)[|p|..] == t;
  }

  // ---------------------------------------------------------------------------
  // Splitting on one separator character: `s.split(sep)`
  // ---------------------------------------------------------------------------

  /**
   * Python's `s.split(sep)` for a one-character separator: the pieces
   * between separators, empty pieces kept, so there is always one more
   * piece than there are separators, and no piece contains `sep`.
   */
  function Split(s: string, sep: char): (parts: seq<string>)
    ensures |parts| == Count(s, sep) + 1
    ensures forall k :: 0 <= k < |parts| ==> sep !in parts[k]
    decreases |s|
  {
    if s == [] then [""]
    else
      var rest := Split(s[1..], sep);
      if s[0] == sep then [""] + rest
      else [[s[0]] + rest[0]] + rest[1..]
  }

  /** Number of occurrences of `c` in `s`, Python's `s.count(c)`. */
  function Count(s: string, c: char): nat
    decreases |s|
  {
    if s == [] then 0 else (if s[0] == c then 1 else 0) + Count(s[1..], c)
  }

  lemma {:induction false} CountedCharOccurs(s: string, c: char)
    ensures Count(s, c) > 0 <==> c in s
    decreases |s|
  {
    if s != [] {
      CountedCharOccurs(s[1..], c);
      assert s == [s[0]] + s[1..];
    }
  }

  /**
   * `sep.join(parts)` for a non-empty list, the inverse of `Split` (which
   * never returns an empty list); the empty join is not needed here.
   */
  function Join(parts: seq<string>, sep: char): string
    requires |parts| >= 1
    decreases |parts|
  {
    if |parts| == 1 then parts[0] else parts[0] + [sep] + Join(parts[1..], sep)
  }

  /** Python's `xs[-1]`, which is defined for every non-empty list. */
  function Last<T>(xs: seq<T>): T
    requires |xs| > 0
  {
    xs[|xs| - 1]
  }

  /** Joining the pieces back with the separator gives the original string. */
  lemma {:induction false} JoinSplit(s: string, sep: char)
    ensures Join(Split(s, sep), sep) == s
    decreases |s|
  {
    if s != [] {
      var rest := Split(s[1..], sep);
      JoinSplit(s[1..], sep);
      if s[0] == sep {
        assert ([""] + rest)[1..] == rest;
        assert s == [sep] + s[1..];
      } else if |rest| == 1 {
        assert s == [s[0]] + s[1..];
      } else {
        var parts := [[s[0]] + rest[0]] + rest[1..];
        assert parts[1..] == rest[1..];
        assert Join(rest, sep) == rest[0] + [sep] + Join(rest[1..], sep);
        assert s == [s[0]] + s[1..];
      }
    }
  }

  /** A string without the separator splits into itself alone. */
  lemma {:induction false} SplitWithoutSeparator(a: string, sep: char)
    requires sep !in a
    ensures Split(a, sep) == [a]
    decreases |a|
  {
    if a != [] {
      SplitWithoutSeparator(a[1..], sep);
      assert [a[0]] + a[1..] == a;
    }
  }

  /** A separator-free head followed by a separator splits off exactly that head. */
  lemma {:induction false} SplitAfterHead(a: string, sep: char, b: string)
    requires sep !in a
    ensures Split(a + [sep] + b, sep) == [a] + Split(b, sep)
    decreases |a|
  {
    var s := a + [sep] + b;
    if a == [] {
      assert s[1..] == b;
    } else {
      assert s[1..] == a[1..] + [sep] + b;
      SplitAfterHead(a[1..], sep, b);
      assert [a[0]] + a[1..] == a;
    }
  }

  /** Python's `"https://a/b".split('/')` is `['https:', '', 'a', 'b']`: empty pieces are kept. */
  lemma SplitUrlExample()
    ensures Split("https://a/b", '/') == ["https:", "", "a", "b"]
  {
    SplitJoin(["https:", "", "a", "b"], '/');
    assert Join(["https:", "", "a", "b"], '/') == "https://a/b";
  }

  /** Splitting a join of separator-free pieces gives the pieces back. */
  lemma {:induction false} SplitJoin(parts: seq<string>, sep: char)
    requires |parts| >= 1
    requires forall k :: 0 <= k < |parts| ==> sep !in parts[k]
    ensures Split(Join(parts, sep), sep) == parts
    decreases |parts|
  {
    if |parts| == 1 {
      SplitWithoutSeparator(parts[0], sep);
    } else {
      SplitJoin(parts[1..], sep);
      SplitAfterHead(parts[0], sep, Join(parts[1..], sep));
      assert [parts[0]] + parts[1..] == parts;
    }
  }

  /**
   * `s.split(sep)[-1]` is the text after the last separator, or the whole
   * string when it has none: a suffix of `s` without `sep` that is either
   * all of `s` or preceded by `sep`.
   */
  lemma {:induction false} LastPieceIsFinalComponent(s: string, sep: char)
    ensures EndsWith(s, Last(Split(s, sep)))
    ensures sep !in Last(Split(s, sep))
    ensures var t := Last(Split(s, sep)); |t| == |s| || s[|s| - |t| - 1] == sep
    decreases |s|
  {
    if s != [] {
      LastPieceStep(s, sep);
      var parts, rest := Split(s, sep), Split(s[1..], sep);
      var t := Last(rest);
      if s[0] != sep && |rest| == 1 {
        assert Last(parts) == s;
        assert sep !in parts[|parts| - 1];
        assert s[0..] == s;
      } else {
        LastPieceIsFinalComponent(s[1..], sep);
        assert Last(parts) == t;
        if s[0] != sep {
          CountedCharOccurs(s[1..], sep);
        }
        SuffixOfTail(s, t, sep);
      }
    }
  }

  /** One step of `Split`: the last piece stays that of the tail, unless the tail is one piece glued to a non-separator. */
  lemma LastPieceStep(s: string, sep: char)
    requires s != []
    ensures var rest := Split(s[1..], sep);
      Last(Split(s, sep)) == if s[0] != sep && |rest| == 1 then s else Last(rest)
    ensures s[0] != sep && |Split(s[1..], sep)| != 1 ==> Count(s[1..], sep) > 0
  {
    var rest := Split(s[1..], sep);
    if s[0] != sep && |rest| == 1 {
      JoinSplit(s[1..], sep);
      assert [s[0]] + s[1..] == s;
    }
  }

  /** A separator-free final component of `s[1..]` is one of `s`, unless it is all of `s[1..]` after a non-separator. */
  lemma SuffixOfTail(s: string, t: string, sep: char)
    requires |s| > 0 && EndsWith(s[1..], t) && sep !in t
    requires |t| == |s| - 1 || s[1..][|s| - 1 - |t| - 1] == sep
    requires s[0] == sep || sep in s[1..]
    ensures EndsWith(s, t)
    ensures |t| == |s| || s[|s| - |t| - 1] == sep
  {
    assert s[1..][|s| - 1 - |t|..] == s[|s| - |t|..];
    if |t| == |s| - 1 {
      assert s[1..] == t;
    }
  }

  // ---------------------------------------------------------------------------
  // Character replacement: `s.replace(a, b)` for one-character a and b
  // ---------------------------------------------------------------------------

  /** Python's `s.replace(from, to)` where both are single characters. */
  function ReplaceChar(s: string, from: char, to: char): (r: string)
    ensures |r| == |s|
    ensures forall i :: 0 <= i < |s| ==> r[i] == (if s[i] == from then to else s[i])
    decreases |s|
  {
    if s == [] then []
    else [if s[0] == from then to else s[0]] + ReplaceChar(s[1..], from, to)
  }

  /** After the replacement no `from` is left, and nothing else new appears. */
  lemma ReplaceCharRemoves(s: string, from: char, to: char, c: char)
    requires from != to
    ensures from !in ReplaceChar(s, from, to)
    ensures c in ReplaceChar(s, from, to) ==> c == to || c in s
  {
    var r := ReplaceChar(s, from, to);
    if c in r {
      var i :| 0 <= i < |r| && r[i] == c;
    }
  }

  // ---------------------------------------------------------------------------
  // Order-preserving de-duplication: `list(dict.fromkeys(xs))`
  // ---------------------------------------------------------------------------

  predicate NoDuplicates<T(==)>(xs: seq<T>)
  {
    forall i, j :: 0 <= i < j < |xs| ==> xs[i] != xs[j]
  }

  /** Index of the first occurrence of `x` in `xs`, Python's `xs.index(x)`. */
  function FirstIndex<T(==)>(xs: seq<T>, x: T): (k: nat)
    requires x in xs
    ensures k < |xs| && xs[k] == x && x !in xs[..k]
    decreases |xs|
  {
    if xs[0] == x then 0
    else
      var k := 1 + FirstIndex(xs[1..], x);
      assert xs[..k] == [xs[0]] + xs[1..][..k - 1];
      k
  }

  /**
   * `list(dict.fromkeys(xs))`: the keys of a dict filled from `xs` in order.
   * A key already present is not moved, so each value keeps the position
   * of its first occurrence.
   */
  function Dedup<T(==,!new)>(xs: seq<T>): (r: seq<T>)
    ensures NoDuplicates(r)
    ensures forall x :: x in r <==> x in xs
    decreases |xs|
  {
    if xs == [] then []
    else
      var init := xs[..|xs| - 1];
      var d := Dedup(init);
      assert xs == init + [xs[|xs| - 1]];
      if xs[|xs| - 1] in d then d else d + [xs[|xs| - 1]]
  }

  /** The first occurrence of `x` in a prefix that has `x` is its first occurrence overall. */
  lemma FirstIndexInPrefix<T>(xs: seq<T>, n: nat, x: T)
    requires n <= |xs| && x in xs[..n]
    ensures FirstIndex(xs[..n], x) == FirstIndex(xs, x)
  {
  }

  /**
   * `Dedup` lists the distinct values in the order of their first
   * occurrence in the input.
   */
  lemma {:induction false} DedupFirstOccurrenceOrder<T(!new)>(xs: seq<T>)
    ensures forall i, j :: 0 <= i < j < |Dedup(xs)| ==>
      FirstIndex(xs, Dedup(xs)[i]) < FirstIndex(xs, Dedup(xs)[j])
    decreases |xs|
  {
    if xs != [] {
      var n := |xs| - 1;
      var init := xs[..n];
      var d := Dedup(init);
      DedupFirstOccurrenceOrder(init);
      forall x | x in d ensures FirstIndex(init, x) == FirstIndex(xs, x) && FirstIndex(xs, x) < n {
        FirstIndexInPrefix(xs, n, x);
      }
      assert xs == init + [xs[n]];
      if xs[n] !in d {
        var r := d + [xs[n]];
        assert FirstIndex(xs, xs[n]) == n by {
          assert xs[n] !in xs[..n];
        }
        forall i, j | 0 <= i < j < |r| ensures FirstIndex(xs, r[i]) < FirstIndex(xs, r[j]) {
          assert r[i] == d[i];
          if j < |d| {
            assert r[j] == d[j];
            assert FirstIndex(init, d[i]) < FirstIndex(init, d[j]);
          }
        }
      }
    }
  }
}
