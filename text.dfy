/**
 * String primitives used by document_utils.py, restricted to ASCII:
 * `sep.join(parts)`, `str.strip()` and the word count `len(s.split())`.
 */
module Text {

  /** Python's `str.isspace()` on ASCII characters: tab, line feed, vertical
      tab, form feed, carriage return, the four separators 0x1C-0x1F and space. */
  predicate IsSpace(c: char) {
    (9 <= c as int <= 13) || (28 <= c as int <= 32)
  }

  /** Sum of the lengths of the parts. */
  function TotalLength(parts: seq<string>): nat {
    if parts == [] then 0 else |parts[0]| + TotalLength(parts[1..])
  }

  /** `sep.join(parts)`: the parts in order with `sep` between neighbours. */
  function JoinWith(parts: seq<string>, sep: string): (r: string)
    ensures |parts| == 0 ==> r == ""
    ensures |parts| > 0 ==> |r| == TotalLength(parts) + (|parts| - 1) * |sep|
    ensures |parts| > 0 ==> r[..|parts[0]|] == parts[0]
  {
    if |parts| == 0 then ""
    else if |parts| == 1 then parts[0]
    else parts[0] + sep + JoinWith(parts[1..], sep)
  }

  /** Joining with a one-character separator gives "" exactly when there is
      nothing to join or only one empty part. */
  lemma JoinWithEmpty(parts: seq<string>, sep: string)
    requires |sep| == 1
    ensures JoinWith(parts, sep) == "" <==> (|parts| == 0 || (|parts| == 1 && parts[0] == ""))
  {
    if |parts| > 0 && JoinWith(parts, sep) == "" {
      assert (|parts| - 1) * |sep| == |parts| - 1;
    }
  }

  /** `x in r` on strings: `x` occurs as a contiguous piece of `r`. */
  predicate IsInfix(x: string, r: string)
    decreases |r|
  {
    (|x| <= |r| && r[..|x|] == x) || (r != "" && IsInfix(x, r[1..]))
  }

  lemma {:induction false} InfixAfter(x: string, pre: string, r: string)
    requires IsInfix(x, r)
    ensures IsInfix(x, pre + r)
    decreases |pre|
  {
    if pre == "" {
      assert pre + r == r;
    } else {
      InfixAfter(x, pre[1..], r);
      assert (pre + r)[1..] == pre[1..] + r;
    }
  }

  /** Joining loses no part: each part occurs in the joined string. */
  lemma {:induction false} JoinWithKeepsParts(parts: seq<string>, sep: string, i: nat)
    requires i < |parts|
    ensures IsInfix(parts[i], JoinWith(parts, sep))
  {
    var r := JoinWith(parts, sep);
    if i == 0 {
      assert r[..|parts[0]|] == parts[0];
    } else {
      JoinWithKeepsParts(parts[1..], sep, i - 1);
      InfixAfter(parts[i], parts[0] + sep, JoinWith(parts[1..], sep));
    }
  }

  /** `s.lstrip()`: drops the leading whitespace. */
  function StripLeft(s: string): string {
    if s != "" && IsSpace(s[0]) then StripLeft(s[1..]) else s
  }

  /** `s.rstrip()`: drops the trailing whitespace. */
  function StripRight(s: string): string {
    if s != "" && IsSpace(s[|s| - 1]) then StripRight(s[..|s| - 1]) else s
  }

  /** `s.strip()`. */
  function Strip(s: string): string {
    StripRight(StripLeft(s))
  }

  /** `lstrip` removes a run of whitespace from the front and nothing else. */
  lemma {:induction false} StripLeftSpec(s: string)
    ensures |StripLeft(s)| <= |s| && StripLeft(s) == s[|s| - |StripLeft(s)|..]
    ensures forall k :: 0 <= k < |s| - |StripLeft(s)| ==> IsSpace(s[k])
    ensures StripLeft(s) == "" || !IsSpace(StripLeft(s)[0])
    decreases |s|
  {
    if s != "" && IsSpace(s[0]) {
      StripLeftSpec(s[1..]);
    }
  }

  /** `rstrip` removes a run of whitespace from the back and nothing else. */
  lemma {:induction false} StripRightSpec(s: string)
    ensures |StripRight(s)| <= |s| && StripRight(s) == s[..|StripRight(s)|]
    ensures forall k :: |StripRight(s)| <= k < |s| ==> IsSpace(s[k])
    ensures StripRight(s) == "" || !IsSpace(StripRight(s)[|StripRight(s)| - 1])
    decreases |s|
  {
    if s != "" && IsSpace(s[|s| - 1]) {
      StripRightSpec(s[..|s| - 1]);
    }
  }

  /** `strip` leaves the slice of `s` between a whitespace run at the front
      and one at the back; the slice neither begins nor ends with whitespace. */
  lemma StripSpec(s: string)
    ensures |Strip(s)| <= |StripLeft(s)| <= |s|
    ensures var lead := |s| - |StripLeft(s)|;
            Strip(s) == s[lead..lead + |Strip(s)|] &&
            (forall k :: 0 <= k < lead ==> IsSpace(s[k])) &&
            (forall k :: lead + |Strip(s)| <= k < |s| ==> IsSpace(s[k]))
    ensures Strip(s) == "" || (!IsSpace(Strip(s)[0]) && !IsSpace(Strip(s)[|Strip(s)| - 1]))
  {
    var t := StripLeft(s);
    StripLeftSpec(s);
    StripRightSpec(t);
    if Strip(s) != "" {
      assert Strip(s)[0] == t[0];
    }
  }

  /** `len(s.split())`: the number of maximal runs of non-whitespace
      characters, counted from the end of the string. */
  function WordCount(s: string): nat {
    if s == "" then 0
    else if IsSpace(s[|s| - 1]) then WordCount(s[..|s| - 1])
    else if |s| == 1 || IsSpace(s[|s| - 2]) then 1 + WordCount(s[..|s| - 1])
    else WordCount(s[..|s| - 1])
  }

  /** Words are separated by whitespace, so a string of n characters holds at
      most (n + 1) / 2 of them. */
  lemma {:induction false} WordCountBound(s: string)
    ensures 2 * WordCount(s) <= |s| + 1
  {
    if s == "" {
    } else if IsSpace(s[|s| - 1]) {
      WordCountBound(s[..|s| - 1]);
    } else if |s| == 1 {
      assert s[..0] == "";
    } else if IsSpace(s[|s| - 2]) {
      var t := s[..|s| - 1];
      assert t[..|t| - 1] == s[..|s| - 2];
      WordCountBound(s[..|s| - 2]);
    } else {
      WordCountBound(s[..|s| - 1]);
    }
  }

  /** A string holds no word exactly when it is all whitespace. */
  lemma {:induction false} WordCountZero(s: string)
    ensures WordCount(s) == 0 <==> forall k :: 0 <= k < |s| ==> IsSpace(s[k])
  {
    if s != "" {
      var t := s[..|s| - 1];
      WordCountZero(t);
      assert forall k :: 0 <= k < |t| ==> t[k] == s[k];
    }
  }

  /** A whitespace character splits the count: the words on either side of it
      are counted separately and none spans it. */
  lemma {:induction false} WordCountSplit(a: string, c: char, b: string)
    requires IsSpace(c)
    ensures WordCount(a + [c] + b) == WordCount(a) + WordCount(b)
    decreases |b|
  {
    var s := a + [c] + b;
    if b == "" {
      assert s == a + [c] && s[..|s| - 1] == a;
    } else {
      var b' := b[..|b| - 1];
      assert s[..|s| - 1] == a + [c] + b';
      assert s[|s| - 1] == b[|b| - 1];
      WordCountSplit(a, c, b');
      if |b| == 1 {
        assert s[|s| - 2] == c && b' == "";
      } else {
        assert s[|s| - 2] == b[|b| - 2];
      }
    }
  }

  /** A non-empty string without whitespace is one word. */
  lemma {:induction false} WordCountOne(w: string)
    requires w != "" && forall k :: 0 <= k < |w| ==> !IsSpace(w[k])
    ensures WordCount(w) == 1
    decreases |w|
  {
    if |w| > 1 {
      var w' := w[..|w| - 1];
      assert forall k :: 0 <= k < |w'| ==> w'[k] == w[k];
      WordCountOne(w');
    } else {
      assert w[..0] == "";
    }
  }

  /** Words joined with single spaces are counted back exactly. */
  lemma {:induction false} WordCountJoin(words: seq<string>)
    requires forall j :: 0 <= j < |words| ==> words[j] != ""
    requires forall j, k :: 0 <= j < |words| && 0 <= k < |words[j]| ==> !IsSpace(words[j][k])
    ensures WordCount(JoinWith(words, " ")) == |words|
  {
    if |words| == 1 {
      WordCountOne(words[0]);
    } else if |words| > 1 {
      WordCountOne(words[0]);
      WordCountJoin(words[1..]);
      WordCountSplit(words[0], ' ', JoinWith(words[1..], " "));
      assert JoinWith(words, " ") == words[0] + [' '] + JoinWith(words[1..], " ");
    }
  }
}
