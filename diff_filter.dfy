/**
 * The filter that ends `compare_documents` (src/document_utils.py:39). The
 * unified diff itself comes from a library and is taken here as an input: the
 * sequence of lines it produced, headers included.
 */
module DiffFilter {

  /** `line.startswith('+') or line.startswith('-')`. */
  predicate IsChange(line: string) {
    |line| > 0 && (line[0] == '+' || line[0] == '-')
  }

  /** The diff lines that carry a '+' or '-' marker, in their original order. */
  function FilterChanges(diff: seq<string>): (r: seq<string>)
    ensures |r| <= |diff|
    ensures forall j :: 0 <= j < |r| ==> IsChange(r[j])
  {
    if diff == [] then []
    else if IsChange(diff[0]) then [diff[0]] + FilterChanges(diff[1..])
    else FilterChanges(diff[1..])
  }

  /** Each marked line is kept as often as it occurs, every other line is
      dropped. */
  lemma {:induction false} FilterChangesCounts(diff: seq<string>, line: string)
    ensures multiset(FilterChanges(diff))[line] ==
            if IsChange(line) then multiset(diff)[line] else 0
  {
    if diff != [] {
      FilterChangesCounts(diff[1..], line);
      assert diff == [diff[0]] + diff[1..];
    }
  }

  /** A line is kept exactly when it is one of the diff's lines and carries a
      marker. */
  lemma FilterChangesMembers(diff: seq<string>, line: string)
    ensures line in FilterChanges(diff) <==> line in diff && IsChange(line)
  {
    FilterChangesCounts(diff, line);
  }

  /** The filter works line by line, so it preserves order: filtering a
      concatenation is concatenating the filtered parts. */
  lemma {:induction false} FilterChangesAppend(a: seq<string>, b: seq<string>)
    ensures FilterChanges(a + b) == FilterChanges(a) + FilterChanges(b)
  {
    if a == [] {
      assert a + b == b;
    } else {
      var c := a + b;
      assert c[0] == a[0] && c[1..] == a[1..] + b;
      FilterChangesAppend(a[1..], b);
      if IsChange(a[0]) {
        calc {
          FilterChanges(c);
          [a[0]] + FilterChanges(a[1..] + b);
          [a[0]] + (FilterChanges(a[1..]) + FilterChanges(b));
          ([a[0]] + FilterChanges(a[1..])) + FilterChanges(b);
        }
      }
    }
  }

  /** Filtering twice keeps what filtering once kept. */
  lemma {:induction false} FilterChangesIdempotent(diff: seq<string>)
    ensures FilterChanges(FilterChanges(diff)) == FilterChanges(diff)
  {
    if diff != [] {
      FilterChangesIdempotent(diff[1..]);
    }
  }

  /** A unified diff of ["Hello world."] against ["Hello world.", "New line
      here."]: the `---`/`+++` file headers carry a marker and are kept, the
      hunk header and the context line are dropped, and the added line keeps
      its '+' with no space after it. */
  lemma HeadersKept()
    ensures FilterChanges(["--- ", "+++ ", "@@ -1 +1,2 @@", " Hello world.", "+New line here."])
            == ["--- ", "+++ ", "+New line here."]
  {
    var d := ["--- ", "+++ ", "@@ -1 +1,2 @@", " Hello world.", "+New line here."];
    assert d[2..] == ["@@ -1 +1,2 @@", " Hello world.", "+New line here."];
    assert d[4..] == ["+New line here."];
  }
}
