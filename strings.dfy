/** String semantics of the Python library calls the core relies on: `re.sub` with a pattern
    made of literal characters and unescaped `.`, `str.replace`, and the lexicographic order
    on `str` used by `sorted`. */
module Strings {

  /** One position of a regular expression without quantifiers or alternation: a literal
      character, or `.`, which (without the DOTALL flag) matches any character but a newline. */
  datatype PatElem = Lit(c: char) | AnyButNewline

  type Pattern = seq<PatElem>

  predicate ElemMatches(e: PatElem, c: char)
  {
    match e
    case Lit(d) => c == d
    case AnyButNewline => c != '\n'
  }

  /** The pattern that matches exactly the text `s`. */
  function Literal(s: string): (p: Pattern)
    ensures |p| == |s|
    ensures forall k :: 0 <= k < |s| ==> p[k] == Lit(s[k])
  {
    seq(|s|, k requires 0 <= k < |s| => Lit(s[k]))
  }

  /** The pattern matches the text `s` at offset `i`. */
  predicate MatchesAt(p: Pattern, s: string, i: nat)
  {
    i + |p| <= |s| && forall k :: 0 <= k < |p| ==> ElemMatches(p[k], s[i + k])
  }

  /** The pattern matches nowhere in `s`. */
  ghost predicate NoMatch(p: Pattern, s: string)
  {
    forall i: nat :: !MatchesAt(p, s, i)
  }

  /** The pattern matches nowhere in `s` except possibly at offset `j`. */
  ghost predicate NoMatchExcept(p: Pattern, s: string, j: nat)
  {
    forall i: nat :: i != j ==> !MatchesAt(p, s, i)
  }

  /** Replacement of every match, scanning left to right and resuming after each match, as
      `re.sub(pattern, repl, s)` and `s.replace(target, repl)` do for a non-empty pattern. */
  function SubAll(p: Pattern, s: string, repl: string): string
    requires |p| > 0
    decreases |s|
  {
    if |s| == 0 then []
    else if MatchesAt(p, s, 0) then repl + SubAll(p, s[|p|..], repl)
    else [s[0]] + SubAll(p, s[1..], repl)
  }

  /** `s.replace(target, repl)` for a non-empty `target`. */
  function Replace(s: string, target: string, repl: string): string
    requires |target| > 0
  {
    SubAll(Literal(target), s, repl)
  }

  lemma MatchesAtShift(p: Pattern, a: string, b: string, i: nat)
    ensures MatchesAt(p, a + b, |a| + i) <==> MatchesAt(p, b, i)
  {
    if MatchesAt(p, b, i) {
      forall k | 0 <= k < |p| ensures ElemMatches(p[k], (a + b)[|a| + i + k]) {
        assert (a + b)[|a| + i + k] == b[i + k];
      }
    }
    if MatchesAt(p, a + b, |a| + i) {
      forall k | 0 <= k < |p| ensures ElemMatches(p[k], b[i + k]) {
        assert (a + b)[|a| + i + k] == b[i + k];
      }
    }
  }

  lemma MatchesAtPrefix(p: Pattern, a: string, b: string, i: nat)
    requires i + |p| <= |a|
    ensures MatchesAt(p, a + b, i) <==> MatchesAt(p, a, i)
  {
    if MatchesAt(p, a, i) {
      forall k | 0 <= k < |p| ensures ElemMatches(p[k], (a + b)[i + k]) {
        assert (a + b)[i + k] == a[i + k];
      }
    }
    if MatchesAt(p, a + b, i) {
      forall k | 0 <= k < |p| ensures ElemMatches(p[k], a[i + k]) {
        assert (a + b)[i + k] == a[i + k];
      }
    }
  }

  lemma MatchesAtDrop(p: Pattern, s: string, n: nat, i: nat)
    requires n <= |s|
    ensures MatchesAt(p, s[n..], i) <==> MatchesAt(p, s, n + i)
  {
    assert s == s[..n] + s[n..];
    MatchesAtShift(p, s[..n], s[n..], i);
  }

  /** With no match anywhere, replacement leaves the text unchanged, whatever the replacement. */
  lemma {:induction false} NoMatchUnchanged(p: Pattern, s: string, repl: string)
    requires |p| > 0
    requires NoMatch(p, s)
    ensures SubAll(p, s, repl) == s
    decreases |s|
  {
    if |s| > 0 {
      assert !MatchesAt(p, s, 0);
      forall i: nat ensures !MatchesAt(p, s[1..], i) {
        MatchesAtDrop(p, s, 1, i);
      }
      NoMatchUnchanged(p, s[1..], repl);
      assert s == [s[0]] + s[1..];
    }
  }

  /** Deleting matches never lengthens the text, and shortens it whenever some match exists. */
  lemma {:induction false} DeleteAllShortens(p: Pattern, s: string)
    requires |p| > 0
    ensures |SubAll(p, s, [])| <= |s|
    ensures !NoMatch(p, s) ==> |SubAll(p, s, [])| < |s|
    decreases |s|
  {
    if |s| > 0 {
      if MatchesAt(p, s, 0) {
        DeleteAllShortens(p, s[|p|..]);
      } else {
        DeleteAllShortens(p, s[1..]);
        if !NoMatch(p, s) {
          var i: nat :| MatchesAt(p, s, i);
          assert i > 0;
          MatchesAtDrop(p, s, 1, i - 1);
          assert !NoMatch(p, s[1..]);
        }
      }
    } else {
      assert NoMatch(p, s);
    }
  }

  /** Deleting every match is the identity exactly when there is nothing to match. */
  lemma DeleteAllUnchangedIff(p: Pattern, s: string)
    requires |p| > 0
    ensures SubAll(p, s, []) == s <==> NoMatch(p, s)
  {
    DeleteAllShortens(p, s);
    if NoMatch(p, s) {
      NoMatchUnchanged(p, s, []);
    }
  }

  /** When the text holds exactly one match, at the end of `a`, that one span is replaced and
      every other character is kept in order. */
  lemma SingleMatch(p: Pattern, a: string, x: string, b: string, repl: string)
    requires |p| > 0 && |x| == |p| && MatchesAt(p, x, 0)
    requires NoMatchExcept(p, a + x + b, |a|)
    ensures SubAll(p, a + x + b, repl) == a + repl + b
  {
    var s := a + x + b;
    assert s == a + (x + b);
    SubAllSkipPrefix(p, a, x + b, repl);
    SubAllAtMatch(p, x, b, repl);
    assert s == (a + x) + b;
    forall i: nat ensures !MatchesAt(p, b, i) {
      MatchesAtShift(p, a + x, b, i);
    }
    NoMatchUnchanged(p, b, repl);
    assert a + (repl + b) == a + repl + b;
  }

  /** `r` can be obtained from `s` by cutting out some non-overlapping matches of `p`,
      keeping every other character in order. */
  ghost predicate ObtainedByCutting(p: Pattern, s: string, r: string)
    requires |p| > 0
    decreases |s|
  {
    if |s| == 0 then r == []
    else
      (MatchesAt(p, s, 0) && ObtainedByCutting(p, s[|p|..], r))
      || (|r| > 0 && r[0] == s[0] && ObtainedByCutting(p, s[1..], r[1..]))
  }

  /** Deleting every match is one way of cutting matches out of the text. */
  lemma {:induction false} DeleteAllCutsMatches(p: Pattern, s: string)
    requires |p| > 0
    ensures ObtainedByCutting(p, s, SubAll(p, s, []))
    decreases |s|
  {
    if |s| > 0 {
      if MatchesAt(p, s, 0) {
        DeleteAllCutsMatches(p, s[|p|..]);
        assert SubAll(p, s, []) == SubAll(p, s[|p|..], []);
      } else {
        DeleteAllCutsMatches(p, s[1..]);
        var r := SubAll(p, s, []);
        assert r == [s[0]] + SubAll(p, s[1..], []);
        assert r[1..] == SubAll(p, s[1..], []);
      }
    }
  }

  /** Cutting only deletes: the result is never longer than the text. */
  lemma {:induction false} CuttingShortens(p: Pattern, s: string, r: string)
    requires |p| > 0
    requires ObtainedByCutting(p, s, r)
    ensures |r| <= |s|
    decreases |s|
  {
    if |s| > 0 {
      if MatchesAt(p, s, 0) && ObtainedByCutting(p, s[|p|..], r) {
        CuttingShortens(p, s[|p|..], r);
      } else {
        CuttingShortens(p, s[1..], r[1..]);
      }
    }
  }

  /** Two deletion passes, `p` then `q`: with one match `x` of `p` followed later by one match
      `y` of `q`, and no other match of either (also none formed once `x` is gone), exactly the
      two spans are cut out. */
  lemma DeleteTwoInTurn(p: Pattern, q: Pattern, a: string, x: string, b: string, y: string, c: string)
    requires |p| > 0 && |x| == |p| && MatchesAt(p, x, 0)
    requires |q| > 0 && |y| == |q| && MatchesAt(q, y, 0)
    requires NoMatchExcept(p, a + x + b + y + c, |a|)
    requires NoMatchExcept(q, a + b + y + c, |a + b|)
    ensures SubAll(q, SubAll(p, a + x + b + y + c, []), []) == a + b + c
  {
    assert a + x + b + y + c == a + x + (b + y + c);
    SingleMatch(p, a, x, b + y + c, []);
    assert a + [] + (b + y + c) == (a + b) + y + c;
    assert a + b + y + c == (a + b) + y + c;
    SingleMatch(q, a + b, y, c, []);
    assert (a + b) + [] + c == a + b + c;
  }

  /** The same when the match of `q` comes first. */
  lemma DeleteTwoInTurnLaterFirst(p: Pattern, q: Pattern, a: string, y: string, b: string, x: string, c: string)
    requires |p| > 0 && |x| == |p| && MatchesAt(p, x, 0)
    requires |q| > 0 && |y| == |q| && MatchesAt(q, y, 0)
    requires NoMatchExcept(p, a + y + b + x + c, |a + y + b|)
    requires NoMatchExcept(q, a + y + b + c, |a|)
    ensures SubAll(q, SubAll(p, a + y + b + x + c, []), []) == a + b + c
  {
    assert a + y + b + x + c == (a + y + b) + x + c;
    SingleMatch(p, a + y + b, x, c, []);
    assert (a + y + b) + [] + c == a + y + (b + c);
    assert a + y + b + c == a + y + (b + c);
    SingleMatch(q, a, y, b + c, []);
    assert a + [] + (b + c) == a + b + c;
  }

  /** No match starts at or after `j` when the pattern's first literal does not occur there. */
  lemma NoMatchFrom(p: Pattern, s: string, c: char, j: nat)
    requires |p| > 0 && p[0] == Lit(c)
    requires j <= |s| && c !in s[j..]
    ensures forall i: nat :: j <= i ==> !MatchesAt(p, s, i)
  {
    forall i: nat | j <= i ensures !MatchesAt(p, s, i) {
      if i < |s| {
        assert s[i] == s[j..][i - j];
        assert !ElemMatches(p[0], s[i + 0]);
      }
    }
  }

  /** The first character of a replacement result comes from the replacement text or the input. */
  lemma SubAllHead(p: Pattern, s: string, repl: string)
    requires |p| > 0 && |repl| > 0
    requires |SubAll(p, s, repl)| > 0
    ensures |s| > 0
    ensures SubAll(p, s, repl)[0] == if MatchesAt(p, s, 0) then repl[0] else s[0]
  {
  }

  /** A prefix in which no match starts is copied unchanged. */
  lemma {:induction false} SubAllSkipPrefix(p: Pattern, a: string, b: string, repl: string)
    requires |p| > 0
    requires forall i: nat :: i < |a| ==> !MatchesAt(p, a + b, i)
    ensures SubAll(p, a + b, repl) == a + SubAll(p, b, repl)
    decreases |a|
  {
    if |a| > 0 {
      var tail := a[1..] + b;
      assert a + b == [a[0]] + tail;
      forall i: nat | i < |a[1..]| ensures !MatchesAt(p, tail, i) {
        MatchesAtShift(p, [a[0]], tail, i);
      }
      SubAllSkipPrefix(p, a[1..], b, repl);
      assert !MatchesAt(p, a + b, 0);
      assert (a + b)[1..] == tail;
      assert a == [a[0]] + a[1..];
    } else {
      assert a + b == b;
    }
  }

  /** A match at the front is replaced and scanning resumes right after it. */
  lemma SubAllAtMatch(p: Pattern, x: string, b: string, repl: string)
    requires |p| > 0 && |x| == |p| && MatchesAt(p, x, 0)
    ensures SubAll(p, x + b, repl) == repl + SubAll(p, b, repl)
  {
    MatchesAtPrefix(p, x, b, 0);
    assert (x + b)[|p|..] == b;
  }

  /** A match preceded by text in which the pattern's first literal does not occur: the text is
      copied, the match replaced, and scanning resumes after it. */
  lemma FirstMatchAfter(p: Pattern, a: string, x: string, rest: string, repl: string, c: char)
    requires |p| > 0 && p[0] == Lit(c)
    requires c !in a
    requires |x| == |p| && MatchesAt(p, x, 0)
    ensures SubAll(p, a + x + rest, repl) == a + repl + SubAll(p, rest, repl)
  {
    assert a + x + rest == a + (x + rest);
    forall i: nat | i < |a| ensures !MatchesAt(p, a + (x + rest), i) {
      assert (a + (x + rest))[i] == a[i];
      assert !ElemMatches(p[0], (a + (x + rest))[i + 0]);
    }
    SubAllSkipPrefix(p, a, x + rest, repl);
    SubAllAtMatch(p, x, rest, repl);
  }

  /** Two matches, each preceded by text without the pattern's first literal, are both replaced. */
  lemma TwoMatchesAfter(p: Pattern, a: string, x: string, b: string, repl: string, c: char)
    requires |p| > 0 && p[0] == Lit(c)
    requires c !in a && c !in b
    requires |x| == |p| && MatchesAt(p, x, 0)
    ensures SubAll(p, a + x + b + x, repl) == a + repl + b + repl
  {
    var tail := b + x;
    assert a + x + b + x == a + x + tail;
    FirstMatchAfter(p, a, x, tail, repl, c);
    assert tail == b + x + [];
    FirstMatchAfter(p, b, x, [], repl, c);
    assert SubAll(p, [], repl) == [];
    assert SubAll(p, tail, repl) == b + repl;
    assert a + repl + (b + repl) == a + repl + b + repl;
  }

  /** Python's `<` on `str`: lexicographic by code point, a proper prefix being smaller;
      this is its reflexive closure. */
  predicate LexLessEq(a: string, b: string)
    decreases |a|
  {
    |a| == 0 || (|b| > 0 && (a[0] < b[0] || (a[0] == b[0] && LexLessEq(a[1..], b[1..]))))
  }

  lemma {:induction false} LexTotal(a: string, b: string)
    ensures LexLessEq(a, b) || LexLessEq(b, a)
    decreases |a|
  {
    if |a| > 0 && |b| > 0 && a[0] == b[0] {
      LexTotal(a[1..], b[1..]);
    }
  }

  lemma {:induction false} LexTransitive(a: string, b: string, c: string)
    requires LexLessEq(a, b) && LexLessEq(b, c)
    ensures LexLessEq(a, c)
    decreases |a|
  {
    if |a| > 0 && a[0] == b[0] && b[0] == c[0] {
      LexTransitive(a[1..], b[1..], c[1..]);
    }
  }

  lemma {:induction false} LexAntisymmetric(a: string, b: string)
    requires LexLessEq(a, b) && LexLessEq(b, a)
    ensures a == b
    decreases |a|
  {
    if |a| > 0 {
      LexAntisymmetric(a[1..], b[1..]);
      assert a == [a[0]] + a[1..] && b == [b[0]] + b[1..];
    }
  }

  predicate Distinct(s: seq<string>)
  {
    forall i, j :: 0 <= i < j < |s| ==> s[i] != s[j]
  }

  /** Ordered by `key`, largest first. */
  predicate SortedDescBy(s: seq<string>, key: string -> string)
  {
    forall i, j :: 0 <= i < j < |s| ==> LexLessEq(key(s[j]), key(s[i]))
  }

  /** Every finite non-empty set has an element whose key is largest. */
  lemma {:induction false} LargestKeyExists(s: set<string>, key: string -> string)
    requires s != {}
    ensures exists x :: x in s && forall y :: y in s ==> LexLessEq(key(y), key(x))
    decreases |s|
  {
    var z :| z in s;
    var rest := s - {z};
    if rest == {} {
      assert s == {z};
      LexTotal(key(z), key(z));
    } else {
      LargestKeyExists(rest, key);
      var x :| x in rest && forall y :: y in rest ==> LexLessEq(key(y), key(x));
      LexTotal(key(z), key(x));
      if LexLessEq(key(z), key(x)) {
        assert forall y :: y in s ==> LexLessEq(key(y), key(x));
      } else {
        forall y | y in s ensures LexLessEq(key(y), key(z)) {
          if y != z {
            LexTransitive(key(y), key(x), key(z));
          } else {
            LexTotal(key(z), key(z));
          }
        }
      }
    }
  }

  lemma AppendSmallest(r: seq<string>, x: string, key: string -> string)
    requires SortedDescBy(r, key)
    requires forall k :: 0 <= k < |r| ==> LexLessEq(key(x), key(r[k]))
    ensures SortedDescBy(r + [x], key)
  {
    var s := r + [x];
    forall i, j | 0 <= i < j < |s| ensures LexLessEq(key(s[j]), key(s[i])) {
      assert s[i] == r[i];
    }
  }

  lemma AppendFresh(r: seq<string>, x: string)
    requires Distinct(r) && x !in r
    ensures Distinct(r + [x])
  {
    var s := r + [x];
    forall i, j | 0 <= i < j < |s| ensures s[i] != s[j] {
      assert s[i] == r[i];
    }
  }

  /** `sorted(urls, key=key, reverse=True)` on a set: every element once, keys non-increasing.
      Elements with equal keys come in an unspecified order, as the iteration order of a Python
      set, which the stable sort preserves, is unspecified. */
  method SortDescending(urls: set<string>, key: string -> string) returns (r: seq<string>)
    ensures forall u :: u in r <==> u in urls
    ensures Distinct(r) && |r| == |urls|
    ensures SortedDescBy(r, key)
  {
    r := [];
    var rest := urls;
    while rest != {}
      invariant rest <= urls
      invariant forall u :: u in urls <==> u in r || u in rest
      invariant forall u :: u in r ==> u !in rest
      invariant Distinct(r) && |r| + |rest| == |urls|
      invariant SortedDescBy(r, key)
      invariant forall k, u :: 0 <= k < |r| && u in rest ==> LexLessEq(key(u), key(r[k]))
      decreases |rest|
    {
      LargestKeyExists(rest, key);
      var x :| x in rest && forall y :: y in rest ==> LexLessEq(key(y), key(x));
      AppendSmallest(r, x, key);
      AppendFresh(r, x);
      r := r + [x];
      rest := rest - {x};
    }
  }
}
