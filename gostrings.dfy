/**
 The parts of Go's `strings` package that migration.go uses, on strings whose
 separators are single characters.
 */
module GoStrings {

  /** Go's strings.HasSuffix. */
  predicate HasSuffix(s: string, suffix: string) {
    |suffix| <= |s| && s[|s| - |suffix|..] == suffix
  }

  /** Go's strings.TrimSuffix: `s` without a trailing `suffix`, or `s` itself when it does not end so. */
  function TrimSuffix(s: string, suffix: string): (r: string)
    ensures HasSuffix(s, suffix) ==> r + suffix == s
    ensures !HasSuffix(s, suffix) ==> r == s
  {
    if HasSuffix(s, suffix) then s[..|s| - |suffix|] else s
  }

  /** Trimming a suffix that was just appended gives back the original. */
  lemma TrimSuffixOfConcat(s: string, suffix: string)
    ensures TrimSuffix(s + suffix, suffix) == s
  {
    assert (s + suffix)[|s|..] == suffix;
    assert (s + suffix)[..|s|] == s;
  }

  /**
   Go's strings.Split with the one-character separator `sep`: the pieces of
   `s` between occurrences of `sep`. There is always at least one piece, and
   no piece contains the separator.
   */
  function Split(s: string, sep: char): (parts: seq<string>)
    ensures |parts| >= 1
    ensures forall k :: 0 <= k < |parts| ==> sep !in parts[k]
    decreases |s|
  {
    if s == [] then [""]
    else
      var rest := Split(s[1..], sep);
      if s[0] == sep then [""] + rest
      else [[s[0]] + rest[0]] + rest[1..]
  }

  /** Go's strings.Join: the elements with `sep` between consecutive ones. */
  function Join(elems: seq<string>, sep: string): (r: string)
    ensures |elems| > 0 ==> |elems[0]| <= |r| && r[..|elems[0]|] == elems[0]
    decreases |elems|
  {
    if |elems| == 0 then ""
    else if |elems| == 1 then elems[0]
    else elems[0] + sep + Join(elems[1..], sep)
  }

  /** A join ends with its last element. */
  lemma {:induction false} JoinEndsWithLast(elems: seq<string>, sep: string)
    requires |elems| > 0
    ensures var last := elems[|elems| - 1]; var r := Join(elems, sep);
      |last| <= |r| && r[|r| - |last|..] == last
    decreases |elems|
  {
    if |elems| > 1 {
      JoinEndsWithLast(elems[1..], sep);
    }
  }

  /** Joining two elements. */
  lemma JoinTwo(elems: seq<string>, sep: string)
    requires |elems| == 2
    ensures Join(elems, sep) == elems[0] + sep + elems[1]
  {
    assert Join(elems[1..], sep) == elems[1];
  }

  /** Joining three elements. */
  lemma JoinThree(elems: seq<string>, sep: string)
    requires |elems| == 3
    ensures Join(elems, sep) == elems[0] + sep + elems[1] + sep + elems[2]
  {
    JoinTwo(elems[1..], sep);
  }

  /** The index of the first occurrence of `c` in `s`. */
  function FirstIndex(s: string, c: char): (i: nat)
    requires c in s
    ensures i < |s| && s[i] == c
    ensures c !in s[..i]
  {
    if s[0] == c then 0 else 1 + FirstIndex(s[1..], c)
  }

  /** `s` with every `from` replaced by `to` (Go's strings.ReplaceAll on one-character strings). */
  function ReplaceChar(s: string, from: char, to: char): (r: string)
    ensures |r| == |s|
    ensures forall i :: 0 <= i < |s| ==> r[i] == if s[i] == from then to else s[i]
  {
    seq(|s|, i requires 0 <= i < |s| => if s[i] == from then to else s[i])
  }

  /** Joining the pieces of a split with the separator gives back the string. */
  lemma {:induction false} JoinSplit(s: string, sep: char)
    ensures Join(Split(s, sep), [sep]) == s
    decreases |s|
  {
    if s != [] {
      var rest := Split(s[1..], sep);
      JoinSplit(s[1..], sep);
      if s[0] == sep {
        assert Split(s, sep) == [""] + rest;
        assert ([""] + rest)[1..] == rest;
      } else if |rest| == 1 {
        assert Split(s, sep) == [[s[0]] + rest[0]];
        assert s == [s[0]] + s[1..];
      } else {
        var parts := Split(s, sep);
        assert parts == [[s[0]] + rest[0]] + rest[1..];
        assert parts[1..] == rest[1..];
        assert Join(rest, [sep]) == rest[0] + [sep] + Join(rest[1..], [sep]);
        assert s == [s[0]] + s[1..];
      }
    }
  }

  /** Splitting `a + t`, where `a` has no separator, glues `a` onto the first piece of `t`. */
  lemma {:induction false} SplitPrefix(a: string, t: string, sep: char)
    requires sep !in a
    ensures Split(a + t, sep) == [a + Split(t, sep)[0]] + Split(t, sep)[1..]
    decreases |a|
  {
    if a == [] {
      var parts := Split(t, sep);
      assert a + t == t && a + parts[0] == parts[0];
      assert parts == [parts[0]] + parts[1..];
    } else {
      SplitPrefix(a[1..], t, sep);
      assert (a + t)[0] == a[0];
      assert (a + t)[1..] == a[1..] + t;
      assert [a[0]] + (a[1..] + Split(t, sep)[0]) == a + Split(t, sep)[0];
    }
  }

  /** A string without the separator splits into itself alone. */
  lemma SplitWithoutSep(s: string, sep: char)
    requires sep !in s
    ensures Split(s, sep) == [s]
  {
    SplitPrefix(s, "", sep);
    assert s + "" == s;
  }

  /** A string with the separator splits at its first occurrence. */
  lemma SplitAtFirst(s: string, sep: char)
    requires sep in s
    ensures Split(s, sep) == [s[..FirstIndex(s, sep)]] + Split(s[FirstIndex(s, sep) + 1..], sep)
  {
    var i := FirstIndex(s, sep);
    var t := s[i..];
    assert s == s[..i] + t;
    SplitPrefix(s[..i], t, sep);
    assert t[0] == sep && t[1..] == s[i + 1..];
    var rest := Split(s[i + 1..], sep);
    assert Split(t, sep) == [""] + rest;
    assert ([""] + rest)[0] == "" && ([""] + rest)[1..] == rest;
    assert s[..i] + "" == s[..i];
  }

  /** The same, piece by piece: the first piece and the rest. */
  lemma SplitHeadTail(s: string, sep: char)
    requires sep in s
    ensures |Split(s, sep)| >= 2
    ensures Split(s, sep)[0] == s[..FirstIndex(s, sep)]
    ensures Split(s, sep)[1..] == Split(s[FirstIndex(s, sep) + 1..], sep)
  {
    var i := FirstIndex(s, sep);
    var rest := Split(s[i + 1..], sep);
    SplitAtFirst(s, sep);
    assert ([s[..i]] + rest)[1..] == rest;
  }

  /** A string splits into two or more pieces exactly when it contains the separator. */
  lemma SplitHasSeveralParts(s: string, sep: char)
    ensures |Split(s, sep)| >= 2 <==> sep in s
  {
    if sep in s {
      SplitAtFirst(s, sep);
    } else {
      SplitWithoutSep(s, sep);
    }
  }

  /** Splitting pieces joined by the separator recovers them, when none contains it. */
  lemma {:induction false} SplitJoin(parts: seq<string>, sep: char)
    requires |parts| >= 1
    requires forall k :: 0 <= k < |parts| ==> sep !in parts[k]
    ensures Split(Join(parts, [sep]), sep) == parts
    decreases |parts|
  {
    if |parts| == 1 {
      SplitWithoutSep(parts[0], sep);
    } else {
      var tail := Join(parts[1..], [sep]);
      SplitJoin(parts[1..], sep);
      assert Join(parts, [sep]) == parts[0] + ([sep] + tail);
      SplitPrefix(parts[0], [sep] + tail, sep);
      assert ([sep] + tail)[1..] == tail;
      assert Split([sep] + tail, sep) == [""] + parts[1..];
      assert parts[0] + "" == parts[0];
      assert parts == [parts[0]] + parts[1..];
    }
  }

  /** A character absent from `s` is absent from every piece of its split. */
  lemma {:induction false} SplitPartsAvoid(s: string, sep: char, c: char)
    requires c !in s
    ensures forall k :: 0 <= k < |Split(s, sep)| ==> c !in Split(s, sep)[k]
    decreases |s|
  {
    if s != [] {
      assert s == [s[0]] + s[1..];
      SplitPartsAvoid(s[1..], sep, c);
    }
  }

  /** Replacing characters distributes over concatenation. */
  lemma ReplaceConcat(a: string, b: string, from: char, to: char)
    ensures ReplaceChar(a + b, from, to) == ReplaceChar(a, from, to) + ReplaceChar(b, from, to)
  {
  }

  /**
   Re-joining with another separator: replacing the separator of a join by
   `to` is joining with `to`, when no piece contains the separator.
   */
  lemma {:induction false} ReplaceJoin(parts: seq<string>, from: char, to: char)
    requires forall k :: 0 <= k < |parts| ==> from !in parts[k]
    ensures ReplaceChar(Join(parts, [from]), from, to) == Join(parts, [to])
    decreases |parts|
  {
    if |parts| == 1 {
      assert ReplaceChar(parts[0], from, to) == parts[0];
    } else if |parts| > 1 {
      ReplaceJoin(parts[1..], from, to);
      ReplaceConcat(parts[0] + [from], Join(parts[1..], [from]), from, to);
      ReplaceConcat(parts[0], [from], from, to);
      assert ReplaceChar(parts[0], from, to) == parts[0];
    }
  }

  /** A character in none of the elements and not the separator is not in their join. */
  lemma {:induction false} JoinAvoids(elems: seq<string>, sep: char, c: char)
    requires c != sep
    requires forall k :: 0 <= k < |elems| ==> c !in elems[k]
    ensures c !in Join(elems, [sep])
    decreases |elems|
  {
    if |elems| > 1 {
      JoinAvoids(elems[1..], sep, c);
      assert forall k :: 1 <= k < |elems| ==> elems[1..][k - 1] == elems[k];
    }
  }
}
