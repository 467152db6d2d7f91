/**
 * `format_summary_as_points` (src/document_utils.py:109-120): split the
 * summary at `". "` and `".\n"`, put the non-empty fragments in a set,
 * and render `"- " + fragment.strip()` for each fragment whose stripped form
 * is longer than three characters, one per line.
 *
 * Python iterates the set in an order it does not promise; the model makes
 * that order an argument, `order`, which may be any enumeration of the set,
 * and states what holds whatever order is chosen.
 */
module BulletFormatter {
  import opened Text

  /** The regular expression `\. |\.\n` matches at position i. */
  predicate BreakAt(s: string, i: int) {
    0 <= i && i + 1 < |s| && s[i] == '.' && (s[i + 1] == ' ' || s[i + 1] == '\n')
  }

  ghost predicate HasBreak(s: string) {
    exists i :: BreakAt(s, i)
  }

  /** `re.split(r'\. |\.\n', s)`: scanning left to right, every match ends
      the current fragment and is dropped; a string without a match is its
      own single fragment. The first fragment is a prefix of `s`. */
  function SplitSentences(s: string): (r: seq<string>)
    ensures |r| >= 1
    ensures |r[0]| <= |s| && r[0] == s[..|r[0]|]
    decreases |s|
  {
    if |s| < 2 then [s]
    else if s[0] == '.' && (s[1] == ' ' || s[1] == '\n') then [""] + SplitSentences(s[2..])
    else
      var rest := SplitSentences(s[1..]);
      [[s[0]] + rest[0]] + rest[1..]
  }

  lemma ShortHasNoBreak(s: string)
    requires |s| < 2
    ensures !HasBreak(s)
  {
    assert forall i :: !BreakAt(s, i);
  }

  /** A character in front of a break-free string creates a break only
      together with the string's first character. */
  lemma ConsNoBreak(c: char, f: string)
    requires !HasBreak(f)
    requires f == "" || !(c == '.' && (f[0] == ' ' || f[0] == '\n'))
    ensures !HasBreak([c] + f)
  {
    var g := [c] + f;
    forall i
      ensures !BreakAt(g, i)
    {
      if i > 0 {
        assert !BreakAt(f, i - 1);
      }
    }
  }

  /** No fragment contains a sentence break. */
  lemma {:induction false} SplitHasNoBreaks(s: string)
    ensures forall j :: 0 <= j < |SplitSentences(s)| ==> !HasBreak(SplitSentences(s)[j])
    decreases |s|
  {
    var r := SplitSentences(s);
    if |s| < 2 {
      ShortHasNoBreak(s);
    } else if s[0] == '.' && (s[1] == ' ' || s[1] == '\n') {
      SplitHasNoBreaks(s[2..]);
      ShortHasNoBreak("");
      assert r == [""] + SplitSentences(s[2..]);
    } else {
      var rest := SplitSentences(s[1..]);
      SplitHasNoBreaks(s[1..]);
      assert rest[0] == "" || rest[0][0] == s[1];
      ConsNoBreak(s[0], rest[0]);
      assert r == [[s[0]] + rest[0]] + rest[1..];
    }
  }

  /** The fragments and the two-character breaks between them account for
      every character of the input. */
  lemma {:induction false} SplitLength(s: string)
    ensures TotalLength(SplitSentences(s)) + 2 * (|SplitSentences(s)| - 1) == |s|
    decreases |s|
  {
    var r := SplitSentences(s);
    if |s| >= 2 {
      if s[0] == '.' && (s[1] == ' ' || s[1] == '\n') {
        SplitLength(s[2..]);
        assert r[1..] == SplitSentences(s[2..]);
      } else {
        var rest := SplitSentences(s[1..]);
        SplitLength(s[1..]);
        assert r[1..] == rest[1..];
        assert TotalLength(rest) == |rest[0]| + TotalLength(rest[1..]);
      }
    }
  }

  /** A fragment followed by a break (`". "` or `".\n"`) splits off as the
      first fragment. */
  lemma {:induction false} SplitAfterFragment(f: string, t: string)
    requires !HasBreak(f)
    requires |t| >= 2 && t[0] == '.' && (t[1] == ' ' || t[1] == '\n')
    ensures SplitSentences(f + t) == [f] + SplitSentences(t[2..])
    decreases |f|
  {
    if f == "" {
      assert f + t == t;
    } else {
      var s := f + t;
      forall i | BreakAt(f[1..], i) ensures false {
        assert BreakAt(f, i + 1);
      }
      SplitAfterFragment(f[1..], t);
      assert s[1..] == f[1..] + t;
      if |f| >= 2 {
        assert !BreakAt(f, 0);
      }
      assert !(s[0] == '.' && (s[1] == ' ' || s[1] == '\n'));
    }
  }

  /** A string without a break is a single fragment, and conversely. */
  lemma {:induction false} SplitSingleIff(s: string)
    ensures SplitSentences(s) == [s] <==> !HasBreak(s)
    decreases |s|
  {
    if !HasBreak(s) {
      if |s| >= 2 {
        assert !BreakAt(s, 0);
        forall i | BreakAt(s[1..], i) ensures false {
          assert BreakAt(s, i + 1);
        }
        SplitSingleIff(s[1..]);
        assert [s[0]] + s[1..] == s;
      }
    } else {
      SplitHasNoBreaks(s);
    }
  }

  /** Joining break-free fragments with `". "` and splitting again gives the
      fragments back. */
  lemma {:induction false} SplitJoinRoundTrip(frags: seq<string>)
    requires |frags| >= 1
    requires forall j :: 0 <= j < |frags| ==> !HasBreak(frags[j])
    ensures SplitSentences(JoinWith(frags, ". ")) == frags
  {
    if |frags| == 1 {
      SplitSingleIff(frags[0]);
    } else {
      var rest := JoinWith(frags[1..], ". ");
      SplitJoinRoundTrip(frags[1..]);
      var t := ". " + rest;
      assert JoinWith(frags, ". ") == frags[0] + t;
      SplitAfterFragment(frags[0], t);
      assert t[2..] == rest;
    }
  }

  /** One of the two separators the regular expression matches. */
  predicate IsBreak(b: string) {
    b == ". " || b == ".\n"
  }

  /** The fragments with the separators between them:
      `frags[0] + breaks[0] + frags[1] + ... + frags[n-1]`. */
  function Interleave(frags: seq<string>, breaks: seq<string>): string
    requires |frags| >= 1 && |breaks| == |frags| - 1
  {
    if |frags| == 1 then frags[0]
    else frags[0] + breaks[0] + Interleave(frags[1..], breaks[1..])
  }

  /** Break-free fragments laid out with any mix of `". "` and `".\n"`
      separators are split back into the same fragments. */
  lemma {:induction false} SplitInterleaveRoundTrip(frags: seq<string>, breaks: seq<string>)
    requires |frags| >= 1 && |breaks| == |frags| - 1
    requires forall j :: 0 <= j < |frags| ==> !HasBreak(frags[j])
    requires forall j :: 0 <= j < |breaks| ==> IsBreak(breaks[j])
    ensures SplitSentences(Interleave(frags, breaks)) == frags
  {
    if |frags| == 1 {
      SplitSingleIff(frags[0]);
    } else {
      var rest := Interleave(frags[1..], breaks[1..]);
      SplitInterleaveRoundTrip(frags[1..], breaks[1..]);
      var t := breaks[0] + rest;
      assert Interleave(frags, breaks) == frags[0] + t;
      assert IsBreak(breaks[0]);
      assert t[0] == '.' && (t[1] == ' ' || t[1] == '\n');
      SplitAfterFragment(frags[0], t);
      assert t[2..] == rest;
    }
  }

  /** Putting one more character in front of the first fragment puts it in
      front of the whole layout. */
  lemma InterleaveCons(c: char, frags: seq<string>, breaks: seq<string>)
    requires |frags| >= 1 && |breaks| == |frags| - 1
    ensures Interleave([[c] + frags[0]] + frags[1..], breaks) == [c] + Interleave(frags, breaks)
  {
    var g := [[c] + frags[0]] + frags[1..];
    assert g[1..] == frags[1..];
  }

  /** An empty first fragment followed by separator p puts p in front of the
      rest of the layout. */
  lemma InterleaveEmptyFirst(p: string, frags: seq<string>, breaks: seq<string>)
    requires |frags| >= 1 && |breaks| == |frags| - 1
    ensures Interleave([""] + frags, [p] + breaks) == p + Interleave(frags, breaks)
  {
    var f, b := [""] + frags, [p] + breaks;
    assert |f| >= 2 && f[0] == "" && b[0] == p;
    assert f[1..] == frags && b[1..] == breaks;
    assert Interleave(f, b) == "" + p + Interleave(frags, breaks);
    assert "" + p == p;
  }

  /** The separators between the fragments of `s`, in order. */
  lemma {:induction false} SplitBreaks(s: string) returns (breaks: seq<string>)
    ensures |breaks| == |SplitSentences(s)| - 1
    ensures forall j :: 0 <= j < |breaks| ==> IsBreak(breaks[j])
    ensures Interleave(SplitSentences(s), breaks) == s
    decreases |s|
  {
    if |s| < 2 {
      breaks := [];
    } else if s[0] == '.' && (s[1] == ' ' || s[1] == '\n') {
      var tail := SplitBreaks(s[2..]);
      breaks := [s[..2]] + tail;
      InterleaveEmptyFirst(s[..2], SplitSentences(s[2..]), tail);
      assert s == s[..2] + s[2..];
    } else {
      breaks := SplitBreaks(s[1..]);
      InterleaveCons(s[0], SplitSentences(s[1..]), breaks);
      assert s == [s[0]] + s[1..];
    }
  }

  /** The split loses nothing: every string is its fragments with a `". "` or
      `".\n"` separator between each two neighbours. */
  lemma SplitReconstruct(s: string)
    ensures exists breaks :: |breaks| == |SplitSentences(s)| - 1 &&
              (forall j :: 0 <= j < |breaks| ==> IsBreak(breaks[j])) &&
              Interleave(SplitSentences(s), breaks) == s
  {
    var breaks := SplitBreaks(s);
  }

  /** `set(filter(None, sentences))`: the distinct non-empty fragments. */
  function Fragments(summary: string): (frags: set<string>)
    ensures forall f :: f in frags ==> f != "" && f in SplitSentences(summary)
  {
    set f | f in SplitSentences(summary) && f != ""
  }

  /** No fragment in the set contains a sentence break. */
  lemma FragmentsHaveNoBreaks(summary: string)
    ensures forall f :: f in Fragments(summary) ==> !HasBreak(f)
  {
    SplitHasNoBreaks(summary);
  }

  /** `len(sentence.strip()) > 3`: fragments that survive the noise filter. */
  predicate Keep(f: string) {
    |Strip(f)| > 3
  }

  function Bullet(f: string): string {
    "- " + Strip(f)
  }

  /** The bullets for the fragments in the given order, noise dropped. */
  function Render(order: seq<string>): seq<string> {
    if order == [] then []
    else (if Keep(order[0]) then [Bullet(order[0])] else []) + Render(order[1..])
  }

  /** `order` lists each element of `s` exactly once: a possible iteration
      order of the Python set. */
  ghost predicate Enumerates(order: seq<string>, s: set<string>) {
    (forall i, j :: 0 <= i < j < |order| ==> order[i] != order[j]) &&
    (forall f :: f in order <==> f in s)
  }

  /** What `format_summary_as_points(summary)` returns when the set of
      fragments is iterated in the given order. */
  function FormatSummaryAsPoints(summary: string, order: seq<string>): (text: string)
    requires Enumerates(order, Fragments(summary))
    ensures text == "" <==> forall f :: f in Fragments(summary) ==> !Keep(f)
  {
    JoinedBulletsEmptyIff(order);
    JoinWith(Render(order), "\n")
  }

  // ---------------------------------------------------------------------
  // Properties of the rendered bullets

  /** Every set has an enumeration, so every summary can be formatted. */
  lemma {:induction false} EnumerationExists(s: set<string>)
    ensures exists order :: Enumerates(order, s)
    decreases |s|
  {
    if s == {} {
      assert Enumerates([], s);
    } else {
      var x :| x in s;
      EnumerationExists(s - {x});
      var rest :| Enumerates(rest, s - {x});
      assert Enumerates([x] + rest, s);
    }
  }

  /** Every bullet is `"- "` followed by a stripped fragment of more than three
      characters. */
  lemma {:induction false} BulletShape(order: seq<string>)
    ensures forall j :: 0 <= j < |Render(order)| ==>
              |Render(order)[j]| > 5 && Render(order)[j][..2] == "- " &&
              !IsSpace(Render(order)[j][2]) && !IsSpace(Render(order)[j][|Render(order)[j]| - 1])
  {
    if order != [] {
      StripSpec(order[0]);
      BulletShape(order[1..]);
    }
  }

  /** A bullet is rendered exactly for the fragments that pass the noise
      filter, and for nothing else. */
  lemma {:induction false} RenderMembers(order: seq<string>)
    ensures forall f :: f in order && Keep(f) ==> Bullet(f) in Render(order)
    ensures forall b :: b in Render(order) ==> exists f :: f in order && Keep(f) && b == Bullet(f)
  {
    if order != [] {
      RenderMembers(order[1..]);
    }
  }

  /** No bullet is rendered exactly when no fragment passes the filter. */
  lemma RenderEmptyIff(order: seq<string>)
    ensures Render(order) == [] <==> forall f :: f in order ==> !Keep(f)
  {
    RenderMembers(order);
  }

  /** The bullets joined with newlines are empty exactly when no fragment
      passes the filter (a bullet itself is never empty). */
  lemma JoinedBulletsEmptyIff(order: seq<string>)
    ensures JoinWith(Render(order), "\n") == "" <==> forall f :: f in order ==> !Keep(f)
  {
    RenderEmptyIff(order);
    BulletShape(order);
    JoinWithEmpty(Render(order), "\n");
  }

  lemma {:induction false} RenderAppend(a: seq<string>, b: seq<string>)
    ensures Render(a + b) == Render(a) + Render(b)
  {
    if a == [] {
      assert a + b == b;
    } else {
      var c := a + b;
      assert c[0] == a[0] && c[1..] == a[1..] + b;
      RenderAppend(a[1..], b);
      var head := if Keep(a[0]) then [Bullet(a[0])] else [];
      calc {
        Render(c);
        head + Render(a[1..] + b);
        head + (Render(a[1..]) + Render(b));
        (head + Render(a[1..])) + Render(b);
      }
    }
  }

  lemma SplitAt<T>(s: seq<T>, j: nat)
    requires j < |s|
    ensures s == (s[..j] + [s[j]]) + s[j + 1..]
  {
  }

  lemma MultisetSwap<T>(a: seq<T>, x: seq<T>, b: seq<T>)
    ensures multiset(a + x + b) == multiset(x) + multiset(a + b)
  {
  }

  /** Taking one fragment out of the order takes its bullet, if any, out of
      the rendered bullets. */
  lemma RenderRemove(order: seq<string>, j: nat)
    requires j < |order|
    ensures multiset(Render(order)) ==
            multiset(Render([order[j]])) + multiset(Render(order[..j] + order[j + 1..]))
  {
    var x, pre, post := order[j], order[..j], order[j + 1..];
    assert order == (pre + [x]) + post by {
      SplitAt(order, j);
    }
    RenderAppend(pre + [x], post);
    RenderAppend(pre, [x]);
    RenderAppend(pre, post);
    MultisetSwap(Render(pre), Render([x]), Render(post));
  }

  /** The first element of a sequence has a match in any rearrangement of
      it, and what is left on both sides are rearrangements too. */
  lemma MatchFirst(o1: seq<string>, o2: seq<string>) returns (j: nat)
    requires o1 != [] && multiset(o1) == multiset(o2)
    ensures j < |o2| && o2[j] == o1[0]
    ensures multiset(o1[1..]) == multiset(o2[..j] + o2[j + 1..])
  {
    var x := o1[0];
    assert x in multiset(o2);
    j :| 0 <= j < |o2| && o2[j] == x;
    assert o2 == o2[..j] + [x] + o2[j + 1..];
    assert o1 == [x] + o1[1..];
    assert multiset(o1[1..]) == multiset(o1) - multiset{x};
    assert multiset(o2[..j] + o2[j + 1..]) == multiset(o2) - multiset{x};
  }

  /** Rendering a rearrangement of the fragments rearranges the bullets. */
  lemma {:induction false} RenderPermutation(o1: seq<string>, o2: seq<string>)
    requires multiset(o1) == multiset(o2)
    ensures multiset(Render(o1)) == multiset(Render(o2))
    decreases |o1|
  {
    if o1 != [] {
      var j := MatchFirst(o1, o2);
      var rest2 := o2[..j] + o2[j + 1..];
      RenderPermutation(o1[1..], rest2);
      RenderRemove(o2, j);
      RenderRemove(o1, 0);
      assert o1[..0] + o1[1..] == o1[1..];
    }
  }

  /** Each element of a repetition-free sequence occurs once in it. */
  lemma {:induction false} DistinctOccursOnce(order: seq<string>, x: string)
    requires forall i, j :: 0 <= i < j < |order| ==> order[i] != order[j]
    ensures multiset(order)[x] == if x in order then 1 else 0
  {
    if order != [] {
      DistinctOccursOnce(order[1..], x);
      assert order == [order[0]] + order[1..];
      assert order[0] !in order[1..];
    }
  }

  /** Whatever order the set is iterated in, the same bullets come out, each
      as often. */
  lemma RenderOrderIndependent(o1: seq<string>, o2: seq<string>, s: set<string>)
    requires Enumerates(o1, s) && Enumerates(o2, s)
    ensures multiset(Render(o1)) == multiset(Render(o2))
  {
    forall x ensures multiset(o1)[x] == multiset(o2)[x] {
      DistinctOccursOnce(o1, x);
      DistinctOccursOnce(o2, x);
    }
    assert multiset(o1) == multiset(o2);
    RenderPermutation(o1, o2);
  }

  /** The fragments of `s` that pass the noise filter. */
  function KeptFragments(s: set<string>): set<string> {
    set f | f in s && Keep(f)
  }

  lemma EnumeratesTail(order: seq<string>, s: set<string>)
    requires order != [] && Enumerates(order, s)
    ensures Enumerates(order[1..], s - {order[0]})
  {
    forall f ensures f in order[1..] <==> f in s - {order[0]} {
      if f in order[1..] {
        var j :| 0 <= j < |order[1..]| && order[1..][j] == f;
        assert order[j + 1] == f;
      }
      if f in s - {order[0]} {
        var j :| 0 <= j < |order| && order[j] == f;
        assert order[1..][j - 1] == f;
      }
    }
  }

  lemma KeptFragmentsRemove(s: set<string>, x: string)
    requires x in s
    ensures KeptFragments(s) == KeptFragments(s - {x}) + (if Keep(x) then {x} else {})
  {
  }

  /** One bullet per distinct fragment that passes the filter: equal
      fragments give one bullet. */
  lemma {:induction false} RenderCount(order: seq<string>, s: set<string>)
    requires Enumerates(order, s)
    ensures |Render(order)| == |KeptFragments(s)|
    decreases |order|
  {
    if order == [] {
      assert KeptFragments(s) == {};
    } else {
      var x := order[0];
      EnumeratesTail(order, s);
      RenderCount(order[1..], s - {x});
      KeptFragmentsRemove(s, x);
      assert x !in KeptFragments(s - {x});
    }
  }

  // ---------------------------------------------------------------------
  // Worked examples

  /** Two break-free fragments joined with `". "` are split back into the
      same two fragments. */
  lemma SplitTwo(a: string, b: string)
    requires !HasBreak(a) && !HasBreak(b)
    ensures SplitSentences(a + ". " + b) == [a, b]
  {
    assert [a, b][1..] == [b];
    assert JoinWith([a, b], ". ") == a + ". " + b;
    SplitJoinRoundTrip([a, b]);
  }

  lemma FragmentsTwo(a: string, b: string)
    requires !HasBreak(a) && !HasBreak(b) && a != "" && b != ""
    ensures Fragments(a + ". " + b) == {a, b}
  {
    SplitTwo(a, b);
  }

  lemma RenderTwo(order: seq<string>, a: string, b: string)
    requires a != b && Keep(a) && Keep(b) && Enumerates(order, {a, b})
    ensures multiset(Render(order)) == multiset{Bullet(a), Bullet(b)}
  {
    assert multiset(Render(order)) == multiset(Render([a, b])) by {
      assert Enumerates([a, b], {a, b});
      RenderOrderIndependent(order, [a, b], {a, b});
    }
    RenderOne(a);
    RenderOne(b);
    RenderAppend([a], [b]);
    assert [a] + [b] == [a, b];
  }

  /** A summary of two distinct break-free sentences, both longer than three
      characters once stripped, yields the bullets of both, whichever order
      the set is iterated in. */
  lemma RenderTwoSentences(order: seq<string>, a: string, b: string)
    requires !HasBreak(a) && !HasBreak(b) && a != b && Keep(a) && Keep(b)
    requires Enumerates(order, Fragments(a + ". " + b))
    ensures multiset(Render(order)) == multiset{Bullet(a), Bullet(b)}
  {
    FragmentsTwo(a, b);
    RenderTwo(order, a, b);
  }

  lemma StripPlain(s: string)
    requires s != "" && !IsSpace(s[0]) && !IsSpace(s[|s| - 1])
    ensures Strip(s) == s
  {
  }

  lemma RenderOne(f: string)
    ensures Render([f]) == if Keep(f) then [Bullet(f)] else []
  {
    assert [f][1..] == [];
  }

  /** "Line one. Line two." yields the bullets "- Line one" and "- Line two."
      in either order: the split keeps the final period. */
  lemma TwoSentenceExample(order: seq<string>)
    requires Enumerates(order, Fragments("Line one" + ". " + "Line two."))
    ensures multiset(Render(order)) == multiset{"- " + "Line one", "- " + "Line two."}
  {
    var a, b := "Line one", "Line two.";
    assert !HasBreak(a) by { assert forall i :: !BreakAt(a, i); }
    assert !HasBreak(b) by { assert forall i :: !BreakAt(b, i); }
    assert |a| != |b|;
    assert Strip(a) == a by {
      assert a[0] == 'L' && a[|a| - 1] == 'e';
      StripPlain(a);
    }
    assert Strip(b) == b by {
      assert b[0] == 'L' && b[|b| - 1] == '.';
      StripPlain(b);
    }
    RenderTwoSentences(order, a, b);
  }

  /** Deduplication happens before stripping: "abcd.  abcd" has the distinct
      fragments "abcd" and " abcd", which render to the same bullet twice. */
  lemma DuplicateAfterStrip(order: seq<string>)
    requires Enumerates(order, Fragments("abcd" + ". " + " abcd"))
    ensures multiset(Render(order)) == multiset{"- " + "abcd", "- " + "abcd"}
  {
    var a, b := "abcd", " abcd";
    assert !HasBreak(a) by { assert forall i :: !BreakAt(a, i); }
    assert !HasBreak(b) by { assert forall i :: !BreakAt(b, i); }
    assert |a| != |b|;
    assert Strip(a) == a by { StripPlain(a); }
    assert Strip(b) == a by {
      StripPlain(a);
      assert IsSpace(b[0]) && b[1..] == a;
      assert StripLeft(b) == StripLeft(a);
    }
    RenderTwoSentences(order, a, b);
  }
}
