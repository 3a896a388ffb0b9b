/**
  The two `java.lang.String` operations the validator relies on:
  `endsWith` and `split` with a one-character, non-regex separator and the
  default limit 0 (split at every separator, then drop trailing empty pieces;
  a string without any separator is returned as the only piece, even when
  it is empty).
 */
module JavaStrings {

  /** `k` copies of `x`. */
  function Repeat<T>(x: T, k: nat): (r: seq<T>)
    ensures |r| == k
    ensures forall i | 0 <= i < k :: r[i] == x
  {
    if k == 0 then [] else [x] + Repeat(x, k - 1)
  }

  /** `String.endsWith`. */
  function EndsWith(s: string, suffix: string): (r: bool)
    ensures r <==> exists stem :: s == stem + suffix
  {
    if |suffix| <= |s| && s[|s| - |suffix|..] == suffix then
      assert s == s[..|s| - |suffix|] + suffix;
      true
    else
      assert forall stem :: s == stem + suffix ==> s[|stem|..] == suffix;
      false
  }

  /** Every piece between separators, empty ones included: one more piece than there are separators. */
  function SplitAll(s: string, sep: char): (parts: seq<string>)
    ensures |parts| >= 1
    ensures forall i | 0 <= i < |parts| :: sep !in parts[i]
  {
    if s == [] then [[]]
    else
      var rest := SplitAll(s[1..], sep);
      if s[0] == sep then [[]] + rest
      else [[s[0]] + rest[0]] + rest[1..]
  }

  /** The pieces put back together, one separator between each two. */
  function Join(parts: seq<string>, sep: char): (s: string)
    requires |parts| >= 1
  {
    if |parts| == 1 then parts[0] else parts[0] + [sep] + Join(parts[1..], sep)
  }

  /** The longest prefix of `parts` that does not end in an empty piece. */
  function DropTrailingEmpty(parts: seq<string>): (r: seq<string>)
    ensures |r| <= |parts| && r == parts[..|r|]
    ensures r == [] || r[|r| - 1] != []
    ensures forall i | |r| <= i < |parts| :: parts[i] == []
  {
    if parts == [] then []
    else if parts[|parts| - 1] == [] then DropTrailingEmpty(parts[..|parts| - 1])
    else parts
  }

  /** `s.split(String.valueOf(sep))` with the default limit 0, for a separator that is not a regular-expression metacharacter. */
  function Split(s: string, sep: char): (r: seq<string>)
    ensures forall i | 0 <= i < |r| :: sep !in r[i]
    ensures |r| >= 2 ==> r[|r| - 1] != []
  {
    if sep !in s then [s] else DropTrailingEmpty(SplitAll(s, sep))
  }

  lemma {:induction false} JoinSplitAll(s: string, sep: char)
    ensures Join(SplitAll(s, sep), sep) == s
    decreases |s|
  {
    if s != [] {
      var rest := SplitAll(s[1..], sep);
      JoinSplitAll(s[1..], sep);
      if s[0] == sep {
        assert ([[]] + rest)[1..] == rest;
      } else if |rest| > 1 {
        var parts := [[s[0]] + rest[0]] + rest[1..];
        assert parts[1..] == rest[1..];
        assert Join(parts, sep) == [s[0]] + (rest[0] + [sep] + Join(rest[1..], sep));
      }
    }
  }

  /** Splitting a string that starts with a separator-free stretch `a`. */
  lemma {:induction false} SplitAllSeparatorFreePrefix(a: string, t: string, sep: char)
    requires sep !in a
    ensures SplitAll(a + t, sep) == [a + SplitAll(t, sep)[0]] + SplitAll(t, sep)[1..]
    decreases |a|
  {
    if a == [] {
      var rest := SplitAll(t, sep);
      assert a + t == t && a + rest[0] == rest[0];
      assert rest == [rest[0]] + rest[1..];
    } else {
      SplitAllSeparatorFreePrefix(a[1..], t, sep);
      assert (a + t)[1..] == a[1..] + t;
      assert [a[0]] + (a[1..] + SplitAll(t, sep)[0]) == a + SplitAll(t, sep)[0];
    }
  }

  lemma {:induction false} SplitAllJoin(parts: seq<string>, sep: char)
    requires |parts| >= 1
    requires forall i | 0 <= i < |parts| :: sep !in parts[i]
    ensures SplitAll(Join(parts, sep), sep) == parts
    decreases |parts|
  {
    if |parts| == 1 {
      SplitAllSeparatorFreePrefix(parts[0], [], sep);
      assert parts[0] + [] == parts[0];
    } else {
      var tail := Join(parts[1..], sep);
      SplitAllJoin(parts[1..], sep);
      assert Join(parts, sep) == parts[0] + ([sep] + tail);
      SplitAllSeparatorFreePrefix(parts[0], [sep] + tail, sep);
      assert ([sep] + tail)[0] == sep && ([sep] + tail)[1..] == tail;
      var rest := SplitAll([sep] + tail, sep);
      assert rest == [[]] + parts[1..];
      assert rest[0] == [] && rest[1..] == parts[1..];
      assert parts[0] + rest[0] == parts[0];
      assert parts == [parts[0]] + parts[1..];
    }
  }

  /** A piece followed by `k` empty pieces joins to that piece followed by `k` separators. */
  lemma {:induction false} JoinEmptyTail(x: string, k: nat, sep: char)
    ensures Join([x] + Repeat([], k), sep) == x + Repeat(sep, k)
    decreases k
  {
    if k > 0 {
      JoinEmptyTail([], k - 1, sep);
      assert ([x] + Repeat([], k))[1..] == [[]] + Repeat([], k - 1);
    }
  }

  /** `k` separators cut into `k + 1` empty pieces. */
  lemma {:induction false} SplitAllSeparators(k: nat, sep: char)
    ensures SplitAll(Repeat(sep, k), sep) == Repeat([], k + 1)
    decreases k
  {
    if k > 0 {
      SplitAllSeparators(k - 1, sep);
      assert Repeat(sep, k)[1..] == Repeat(sep, k - 1);
    }
  }

  /** Java returns no piece at all exactly when the string is non-empty and all separators. */
  lemma SplitEmptyIff(s: string, sep: char)
    ensures Split(s, sep) == [] <==> |s| > 0 && forall i | 0 <= i < |s| :: s[i] == sep
  {
    if |s| > 0 && forall i | 0 <= i < |s| :: s[i] == sep {
      assert s == Repeat(sep, |s|);
      assert s[0] == sep;
      SplitAllSeparators(|s|, sep);
    }
    if Split(s, sep) == [] {
      assert sep in s;
      var parts := SplitAll(s, sep);
      assert parts == Repeat([], |parts|);
      JoinSplitAll(s, sep);
      assert parts == [[]] + Repeat([], |parts| - 1);
      JoinEmptyTail([], |parts| - 1, sep);
    }
  }

  /** What `Split` gives back, padded with the empty pieces it dropped, joins to the original string. */
  lemma SplitPieces(s: string, sep: char)
    requires sep in s
    ensures exists k: nat :: |Split(s, sep)| + k >= 1 && Join(Split(s, sep) + Repeat([], k), sep) == s
  {
    var parts := SplitAll(s, sep);
    var r := Split(s, sep);
    var k := |parts| - |r|;
    assert parts == r + Repeat([], k);
    JoinSplitAll(s, sep);
  }

  /** A split into exactly two pieces comes from `group + sep + name` and trailing separators. */
  lemma SplitPairShape(s: string, sep: char, group: string, name: string)
    requires Split(s, sep) == [group, name]
    ensures sep !in group && sep !in name && name != []
    ensures s == group + [sep] + name + Repeat(sep, |SplitAll(s, sep)| - 2)
  {
    assert sep in s;
    var parts := SplitAll(s, sep);
    var k := |parts| - 2;
    assert parts == [group] + ([name] + Repeat([], k));
    JoinSplitAll(s, sep);
    JoinEmptyTail(name, k, sep);
  }

  /** Empty pieces appended after a non-empty last piece are exactly what is dropped. */
  lemma DropTrailingEmptyPadding(parts: seq<string>, k: nat)
    requires parts != [] && parts[|parts| - 1] != []
    ensures DropTrailingEmpty(parts + Repeat([], k)) == parts
  {
    var padded := parts + Repeat([], k);
    var r := DropTrailingEmpty(padded);
    assert padded[|parts| - 1] != [];
    assert forall i | |parts| <= i < |padded| :: padded[i] == [];
    assert |r| == |parts|;
    assert padded[..|parts|] == parts;
  }

  /** `group + sep + name` and trailing separators splits into exactly group and name. */
  lemma SplitPairFromShape(group: string, name: string, sep: char, k: nat)
    requires sep !in group && sep !in name && name != []
    ensures Split(group + [sep] + name + Repeat(sep, k), sep) == [group, name]
  {
    var s := group + [sep] + name + Repeat(sep, k);
    var padded := [group] + ([name] + Repeat([], k));
    assert SplitAll(s, sep) == padded by {
      JoinEmptyTail(name, k, sep);
      assert padded[1..] == [name] + Repeat([], k);
      assert Join(padded, sep) == s;
      SplitAllJoin(padded, sep);
    }
    assert s[|group|] == sep;
    assert padded == [group, name] + Repeat([], k);
    DropTrailingEmptyPadding([group, name], k);
  }

  /**
    The configuration shape `split` accepts as a pair: exactly the strings
    `group + sep + name + sep...sep` with no separator inside `group` or
    `name` and `name` non-empty. `group` may be empty; any number of
    trailing separators is tolerated.
   */
  lemma SplitPairIff(s: string, sep: char, group: string, name: string)
    ensures Split(s, sep) == [group, name] <==>
      sep !in group && sep !in name && name != [] &&
      exists k: nat :: s == group + [sep] + name + Repeat(sep, k)
  {
    if Split(s, sep) == [group, name] {
      SplitPairShape(s, sep, group, name);
    }
    if sep !in group && sep !in name && name != [] &&
       exists k: nat :: s == group + [sep] + name + Repeat(sep, k)
    {
      var k: nat :| s == group + [sep] + name + Repeat(sep, k);
      SplitPairFromShape(group, name, sep, k);
    }
  }

  /** A trailing separator is dropped. */
  lemma SplitTrailingSeparator()
    ensures Split("a:b:", ':') == ["a", "b"]
  {
    assert "a:b:" == "a" + [':'] + "b" + Repeat(':', 1);
    SplitPairIff("a:b:", ':', "a", "b");
  }

  /** A leading separator gives an empty first piece. */
  lemma SplitLeadingSeparator()
    ensures Split(":b", ':') == ["", "b"]
  {
    assert ":b" == "" + [':'] + "b" + Repeat(':', 0);
    SplitPairIff(":b", ':', "", "b");
  }

  /** An empty last piece disappears. */
  lemma SplitEmptyLastPiece()
    ensures Split("a:", ':') == ["a"]
  {
    var s: string := "a:";
    assert s[0] == 'a' && s[1..] == ":";
    assert SplitAll(":", ':') == [[]] + [[]];
    assert ['a'] + [] == "a";
    assert SplitAll(s, ':') == ["a", ""];
  }

  /** Two separators in a row leave an empty piece between them. */
  lemma SplitInnerEmptyPiece()
    ensures Split("a::b", ':') == ["a", "", "b"]
  {
    var parts: seq<string> := ["a", "", "b"];
    assert Join(parts, ':') == "a::b" by {
      assert parts[1..] == ["", "b"] && parts[1..][1..] == ["b"];
    }
    SplitAllJoin(parts, ':');
    assert "a::b"[1] == ':';
  }

  /** A lone separator gives no piece at all. */
  lemma SplitLoneSeparator()
    ensures Split(":", ':') == []
  {
    SplitEmptyIff(":", ':');
  }

  /** Without a separator the string is its own only piece, the empty string included. */
  lemma SplitWithoutSeparator()
    ensures Split("", ':') == [""]
    ensures Split("wrong-config", ':') == ["wrong-config"]
  {
    var s: string := "wrong-config";
    assert s == "wrong" + ['-'] + "config";
    assert ':' !in s;
  }
}
