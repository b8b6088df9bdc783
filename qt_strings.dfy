/** QStringList::join and QString::split with a one-character separator, as
    MainWindow uses them to persist the list of opened effects. Both keep
    empty parts, as Qt does by default. */
module QtStrings {

  /** `parts.join(sep)`: the parts with one `sep` between neighbours
      (`JoinSeparatorCount`). It starts with the first part. */
  function Join(parts: seq<string>, sep: char): (r: string)
    ensures |parts| == 0 ==> r == ""
    ensures |parts| > 0 ==> parts[0] <= r
  {
    if |parts| == 0 then ""
    else if |parts| == 1 then parts[0]
    else parts[0] + [sep] + Join(parts[1..], sep)
  }

  /** When no part contains the separator, join puts exactly one separator
      between each pair of neighbours and no other. */
  lemma {:induction false} JoinSeparatorCount(parts: seq<string>, sep: char)
    requires |parts| > 0
    requires NoSeparator(parts, sep)
    ensures multiset(Join(parts, sep))[sep] == |parts| - 1
  {
    assert parts[0] in parts;
    assert sep !in multiset(parts[0]);
    if |parts| > 1 {
      forall p | p in parts[1..]
        ensures sep !in p
      {
        assert p in parts;
      }
      JoinSeparatorCount(parts[1..], sep);
      var tail := Join(parts[1..], sep);
      assert multiset(parts[0] + [sep] + tail) == multiset(parts[0]) + multiset{sep} + multiset(tail);
    }
  }

  /** `s.split(sep)`: the maximal `sep`-free pieces between separators. An
      empty string yields one empty piece. */
  function Split(s: string, sep: char): (r: seq<string>)
    ensures |r| >= 1
    ensures forall p :: p in r ==> sep !in p
  {
    if |s| == 0 then [""]
    else
      var rest := Split(s[1..], sep);
      if s[0] == sep then [""] + rest
      else [[s[0]] + rest[0]] + rest[1..]
  }

  predicate NoSeparator(parts: seq<string>, sep: char)
  {
    forall p :: p in parts ==> sep !in p
  }

  lemma {:induction false} SplitWithoutSeparator(s: string, sep: char)
    requires sep !in s
    ensures Split(s, sep) == [s]
  {
    if |s| > 0 {
      SplitWithoutSeparator(s[1..], sep);
      assert [s[0]] + s[1..] == s;
    }
  }

  /** Splitting a separator-free prefix off the front. */
  lemma {:induction false} SplitAfterPrefix(p: string, sep: char, rest: string)
    requires sep !in p
    ensures Split(p + [sep] + rest, sep) == [p] + Split(rest, sep)
  {
    var s := p + [sep] + rest;
    if |p| == 0 {
      assert s[1..] == rest;
    } else {
      assert s[1..] == p[1..] + [sep] + rest;
      SplitAfterPrefix(p[1..], sep, rest);
      assert [p[0]] + p[1..] == p;
    }
  }

  /** Splitting what join wrote gives the parts back, provided there is at
      least one part and no part contains the separator. */
  lemma {:induction false} SplitJoin(parts: seq<string>, sep: char)
    requires |parts| > 0
    requires NoSeparator(parts, sep)
    ensures Split(Join(parts, sep), sep) == parts
  {
    if |parts| == 1 {
      SplitWithoutSeparator(parts[0], sep);
    } else {
      SplitAfterPrefix(parts[0], sep, Join(parts[1..], sep));
      SplitJoin(parts[1..], sep);
      assert [parts[0]] + parts[1..] == parts;
    }
  }

  /** Joining the pieces of any string restores it. */
  lemma {:induction false} JoinSplit(s: string, sep: char)
    ensures Join(Split(s, sep), sep) == s
  {
    if |s| > 0 {
      var rest := Split(s[1..], sep);
      JoinSplit(s[1..], sep);
      if s[0] == sep {
        assert ([""] + rest)[1..] == rest;
        assert [sep] + s[1..] == s;
      } else {
        var r := [[s[0]] + rest[0]] + rest[1..];
        assert r[1..] == rest[1..];
        if |rest| == 1 {
          assert [s[0]] + s[1..] == s;
        } else {
          assert Join(rest, sep) == rest[0] + [sep] + Join(rest[1..], sep);
          assert Join(r, sep) == ([s[0]] + rest[0]) + [sep] + Join(rest[1..], sep);
          assert [s[0]] + s[1..] == s;
        }
      }
    }
  }

  /** The empty list is written as the empty string, which splits into one
      empty key rather than into no keys. */
  lemma EmptyListRoundTrip(sep: char)
    ensures Join([], sep) == ""
    ensures Split(Join([], sep), sep) == [""]
  {
  }

  /** A key that contains the separator does not survive a round trip:
      what comes back is not the key alone. */
  lemma {:induction false} SeparatorInKeyIsLost(k: string, sep: char)
    requires sep in k
    ensures Split(Join([k], sep), sep) != [k]
  {
    var r := Split(Join([k], sep), sep);
    assert r[0] in r;
    assert r[0] != k;
  }

  /** For example, the key "a;b" comes back as two keys. */
  lemma SeparatorInKeySplitsIt()
    ensures Split(Join(["a;b"], ';'), ';') == ["a", "b"]
  {
    assert Join(["a;b"], ';') == "a" + [';'] + "b";
    SplitAfterPrefix("a", ';', "b");
    SplitWithoutSeparator("b", ';');
  }
}
