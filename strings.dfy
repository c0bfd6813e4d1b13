/** Python string operations the search engine relies on, on `string` = `seq<char>`. */
module PyStrings {

  /** `t` occurs in `s` starting at index `i`. */
  predicate OccursAt(t: string, s: string, i: int)
  {
    0 <= i && i + |t| <= |s| && s[i..i + |t|] == t
  }

  /** Python's `t in s` on strings: `t` is a contiguous substring of `s`. */
  predicate Contains(s: string, t: string)
  {
    exists i :: 0 <= i <= |s| - |t| && OccursAt(t, s, i)
  }

  predicate IsSuffix(t: string, s: string)
  {
    |t| <= |s| && s[|s| - |t|..] == t
  }

  predicate NoSpace(s: string)
  {
    ' ' !in s
  }

  function Max(a: int, b: int): int { if a < b then b else a }

  function Min(a: int, b: int): int { if a < b then a else b }

  /** How Python normalises one bound of a slice `s[i:j]` of a sequence of length `n`. */
  function PyIndex(i: int, n: nat): (r: nat)
    ensures r <= n
    ensures 0 <= i <= n ==> r == i
  {
    if i < 0 then (if i + n < 0 then 0 else i + n)
    else if i > n then n
    else i
  }

  /** Python's slice `s[i:j]`, negative and out-of-range bounds included. */
  function PySlice(s: string, i: int, j: int): (r: string)
    ensures 0 <= i <= j <= |s| ==> r == s[i..j]
  {
    var a := PyIndex(i, |s|);
    var b := PyIndex(j, |s|);
    if a < b then s[a..b] else []
  }

  /** Python's `s[:n]`, for n >= 0. */
  function TakePrefix(s: string, n: nat): (r: string)
  {
    PySlice(s, 0, n)
  }

  /** Python's `s[-n:]`, for n >= 0 (`s[-0:]` is the whole string). */
  function TakeSuffix(s: string, n: nat): (r: string)
  {
    PySlice(s, -(n as int), |s|)
  }

  lemma {:induction false} TakePrefixMeaning(s: string, p: string)
    ensures TakePrefix(s, |p|) == p <==> p <= s
  {
    if |p| <= |s| {
      assert TakePrefix(s, |p|) == s[..|p|];
    } else {
      assert TakePrefix(s, |p|) == s;
    }
  }

  lemma {:induction false} TakeSuffixMeaning(s: string, p: string)
    requires p != []
    ensures TakeSuffix(s, |p|) == p <==> IsSuffix(p, s)
  {
    if |p| <= |s| {
      assert TakeSuffix(s, |p|) == s[|s| - |p|..];
    } else {
      assert TakeSuffix(s, |p|) == s;
    }
  }

  /** Python's `s.split(" ")`: one token per separator plus one, empty tokens kept. */
  function Split(s: string): (r: seq<string>)
    ensures |r| >= 1
  {
    if |s| == 0 then [""]
    else
      var rest := Split(s[1..]);
      if s[0] == ' ' then [""] + rest
      else [[s[0]] + rest[0]] + rest[1..]
  }

  /** Putting a character in front of the first word puts it in front of the join. */
  lemma JoinPrepend(c: char, x: string, rest: seq<string>)
    ensures Join([[c] + x] + rest) == [c] + Join([x] + rest)
  {
    if rest != [] {
      assert ([[c] + x] + rest)[1..] == rest;
      assert ([x] + rest)[1..] == rest;
    }
  }

  /** Joining the tokens of a split with single spaces gives back the string. */
  lemma {:induction false} SplitJoin(s: string)
    ensures Join(Split(s)) == s
  {
    if |s| > 0 {
      var rest := Split(s[1..]);
      SplitJoin(s[1..]);
      assert s == [s[0]] + s[1..];
      if s[0] != ' ' {
        JoinPrepend(s[0], rest[0], rest[1..]);
        assert rest == [rest[0]] + rest[1..];
      }
    }
  }

  /** No token of a split holds a space. */
  lemma {:induction false} SplitNoSpace(s: string)
    ensures forall k :: 0 <= k < |Split(s)| ==> NoSpace(Split(s)[k])
  {
    if |s| > 0 {
      var rest := Split(s[1..]);
      SplitNoSpace(s[1..]);
      if s[0] != ' ' {
        var head := [s[0]] + rest[0];
        assert NoSpace(head) by {
          assert NoSpace(rest[0]);
          assert forall c :: c in head ==> c == s[0] || c in rest[0];
        }
        assert forall k :: 1 <= k < |Split(s)| ==> Split(s)[k] == rest[k];
      }
    }
  }

  /** Splitting at a separator splits the two sides independently. */
  lemma {:induction false} SplitAtSeparator(x: string, z: string)
    ensures Split(x + " " + z) == Split(x) + Split(z)
  {
    if |x| == 0 {
      assert x + " " + z == " " + z;
      assert (" " + z)[1..] == z;
    } else {
      var x' := x[1..];
      assert (x + " " + z)[1..] == x' + " " + z;
      assert (x + " " + z)[0] == x[0];
      SplitAtSeparator(x', z);
    }
  }

  lemma {:induction false} SplitWord(w: string)
    requires NoSpace(w)
    ensures Split(w) == [w]
  {
    if |w| > 0 {
      assert w[0] in w;
      assert forall c :: c in w[1..] ==> c in w;
      SplitWord(w[1..]);
      assert [w[0]] + w[1..] == w;
    }
  }

  /** Every string contains itself. */
  lemma ContainsSelf(s: string)
    ensures Contains(s, s)
  {
    assert OccursAt(s, s, 0);
  }

  /** Adding text at either end of a string keeps the string inside. */
  lemma ContainsAfterAdd(x: string, s: string)
    ensures Contains(x + s, s) && Contains(s + x, s)
  {
    assert (x + s)[|x|..|x| + |s|] == s;
    assert OccursAt(s, x + s, |x|);
    assert (s + x)[0..|s|] == s;
    assert OccursAt(s, s + x, 0);
  }

  /** A string that contains `t` contains everything `t` contains. */
  lemma ContainsTransitive(s: string, t: string, u: string)
    requires Contains(s, t) && Contains(t, u)
    ensures Contains(s, u)
  {
    var i :| 0 <= i <= |s| - |t| && OccursAt(t, s, i);
    var j :| 0 <= j <= |t| - |u| && OccursAt(u, t, j);
    forall k | 0 <= k < |u| ensures s[i + j + k] == u[k] {
      assert u[k] == t[j..j + |u|][k] == t[j + k];
      assert t[j + k] == s[i..i + |t|][j + k] == s[i + j + k];
    }
    assert s[i + j..i + j + |u|] == u;
    assert OccursAt(u, s, i + j);
  }

  /** Python's `" ".join(words)`. */
  function Join(words: seq<string>): string
  {
    if |words| == 0 then ""
    else if |words| == 1 then words[0]
    else words[0] + " " + Join(words[1..])
  }

  /** The text the matcher scans: the words joined by single spaces, with a space at each end. */
  function Corpus(words: seq<string>): string
  {
    " " + Join(words) + " "
  }

  /** Splitting a join of space-free words at its spaces gives back the words. */
  lemma {:induction false} JoinSplit(words: seq<string>)
    requires |words| >= 1 && forall i :: 0 <= i < |words| ==> NoSpace(words[i])
    ensures Split(Join(words)) == words
  {
    SplitWord(words[0]);
    if |words| > 1 {
      var rest := words[1..];
      assert forall i :: 0 <= i < |rest| ==> rest[i] == words[i + 1];
      JoinSplit(rest);
      SplitAtSeparator(words[0], Join(rest));
      assert words == [words[0]] + rest;
    }
  }

  /** The padded corpus splits into an empty token, the words, and an empty token. */
  lemma CorpusSplit(words: seq<string>)
    requires |words| >= 1 && forall i :: 0 <= i < |words| ==> NoSpace(words[i])
    ensures Split(Corpus(words)) == [""] + words + [""]
  {
    var j := Join(words);
    JoinSplit(words);
    assert Corpus(words) == "" + " " + (j + " ");
    SplitAtSeparator("", j + " ");
    assert j + " " == j + " " + "";
    SplitAtSeparator(j, "");
  }

  /** Every word of a join sits between separators (or the ends of the join). */
  lemma {:induction false} JoinAround(words: seq<string>, i: int) returns (before: string, after: string)
    requires 0 <= i < |words|
    ensures Join(words) == before + words[i] + after
    ensures before == [] || before[|before| - 1] == ' '
    ensures after == [] || after[0] == ' '
  {
    if i == 0 {
      before := [];
      after := if |words| == 1 then [] else " " + Join(words[1..]);
    } else {
      var b, a := JoinAround(words[1..], i - 1);
      before := words[0] + " " + b;
      after := a;
      assert words[1..][i - 1] == words[i];
    }
  }

  /** A space-free occurrence covers no separator. */
  lemma SpaceFreeOccurrence(t: string, s: string, i: int, k: int)
    requires NoSpace(t) && OccursAt(t, s, i) && 0 <= k < |s|
    ensures i <= k < i + |t| ==> s[k] != ' '
  {
    if i <= k < i + |t| {
      assert s[k] == s[i..i + |t|][k - i];
      assert t[k - i] in t;
    }
  }

  /** A space-free non-empty piece of a join lies inside one of the joined words. */
  lemma {:induction false} SpaceFreeInJoin(words: seq<string>, t: string, i: int) returns (w: string)
    requires |t| > 0 && NoSpace(t) && OccursAt(t, Join(words), i)
    ensures w in words && Contains(w, t)
  {
    assert |words| > 0;
    if |words| == 1 {
      w := words[0];
      assert OccursAt(t, w, i);
    } else {
      var j := Join(words);
      var h := words[0];
      var rest := Join(words[1..]);
      assert j == h + " " + rest;
      assert j[|h|] == ' ';
      SpaceFreeOccurrence(t, j, i, |h|);
      if i + |t| <= |h| {
        w := h;
        assert j[i..i + |t|] == h[i..i + |t|];
        assert OccursAt(t, w, i);
      } else {
        assert i > |h|;
        assert j[i..i + |t|] == rest[i - |h| - 1..i - |h| - 1 + |t|];
        w := SpaceFreeInJoin(words[1..], t, i - |h| - 1);
      }
    }
  }

  /** A space-free non-empty substring of the corpus is a substring of one of its words. */
  lemma {:induction false} SpaceFreeInCorpus(words: seq<string>, t: string, i: int) returns (w: string)
    requires |t| > 0 && NoSpace(t) && OccursAt(t, Corpus(words), i)
    ensures w in words && Contains(w, t)
  {
    var j := Join(words);
    var c := Corpus(words);
    assert c == " " + j + " ";
    assert c[0] == ' ' && c[|j| + 1] == ' ';
    SpaceFreeOccurrence(t, c, i, 0);
    SpaceFreeOccurrence(t, c, i, |j| + 1);
    assert 1 <= i && i + |t| <= |j| + 1;
    assert c[i..i + |t|] == j[i - 1..i - 1 + |t|];
    w := SpaceFreeInJoin(words, t, i - 1);
  }

  predicate IsLowerAscii(c: char)
  {
    'a' <= c <= 'z'
  }

  function UpperChar(c: char): char
  {
    if IsLowerAscii(c) then (c as int - 32) as char else c
  }

  /**
   * Python's `s.upper()`, restricted to the ASCII letters: the same length, no lower-case
   * letter left, each lower-case letter replaced by the upper-case letter of the same place in
   * the alphabet, every other character kept.
   */
  function Upper(s: string): (r: string)
    ensures |r| == |s|
    ensures forall i :: 0 <= i < |r| ==> !IsLowerAscii(r[i])
    ensures forall i :: 0 <= i < |s| && IsLowerAscii(s[i]) ==>
              'A' <= r[i] <= 'Z' && r[i] as int - 'A' as int == s[i] as int - 'a' as int
    ensures forall i :: 0 <= i < |s| && !IsLowerAscii(s[i]) ==> r[i] == s[i]
  {
    seq(|s|, i requires 0 <= i < |s| => UpperChar(s[i]))
  }

  /** A string without lower-case letters is its own upper case. */
  lemma UpperFixed(s: string)
    requires forall i :: 0 <= i < |s| ==> !IsLowerAscii(s[i])
    ensures Upper(s) == s
  {
    assert forall i :: 0 <= i < |s| ==> Upper(s)[i] == s[i];
  }

  /** Upper-casing twice is upper-casing once. */
  lemma UpperIdempotent(s: string)
    ensures Upper(Upper(s)) == Upper(s)
  {
    UpperFixed(Upper(s));
  }
}
