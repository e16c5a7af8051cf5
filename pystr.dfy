/**
 Python's `str.split(sep)` with an explicit one-character separator, and its
 inverse `sep.join(fields)`.

 With an explicit separator Python keeps empty fields: "a,,b" splits into
 ["a", "", "b"], "" into [""] and ",a" into ["", "a"]. So a split always
 yields one field more than the string has separators, no field contains the
 separator, and joining the fields back gives the original string.
 */
module PyStr {

  /** `s.split(sep)`: the maximal separator-free runs of `s`, in order. */
  function Split(s: string, sep: char): (fields: seq<string>)
    ensures |fields| >= 1
    ensures forall i :: 0 <= i < |fields| ==> sep !in fields[i]
    decreases |s|
  {
    if s == [] then [""]
    else
      var rest := Split(s[1..], sep);
      if s[0] == sep then [""] + rest
      else [[s[0]] + rest[0]] + rest[1..]
  }

  /** `sep.join(fields)`: the fields with one separator between neighbours. */
  function Join(fields: seq<string>, sep: char): (s: string)
    ensures |fields| == 1 ==> s == fields[0]
    ensures |fields| >= 2 ==> |fields[0]| < |s| && s[..|fields[0]|] == fields[0] && s[|fields[0]|] == sep
  {
    if |fields| == 0 then ""
    else if |fields| == 1 then fields[0]
    else fields[0] + [sep] + Join(fields[1..], sep)
  }

  /** Joining the fields of a split gives back the string that was split. */
  lemma {:induction false} JoinSplit(s: string, sep: char)
    ensures Join(Split(s, sep), sep) == s
    decreases |s|
  {
    if s != [] {
      var rest := Split(s[1..], sep);
      JoinSplit(s[1..], sep);
      if s[0] == sep {
        assert Split(s, sep) == [""] + rest;
        assert ([""] + rest)[1..] == rest;
      } else {
        JoinConsChar(s[0], rest, sep);
      }
    }
  }

  /** Prepending a character to the first field prepends it to the join. */
  lemma JoinConsChar(c: char, fields: seq<string>, sep: char)
    requires |fields| >= 1
    ensures Join([[c] + fields[0]] + fields[1..], sep) == [c] + Join(fields, sep)
  {
  }

  /** A split yields exactly one field more than there are separators. */
  lemma {:induction false} SplitCount(s: string, sep: char)
    ensures |Split(s, sep)| == multiset(s)[sep] + 1
    decreases |s|
  {
    if s != [] {
      SplitCount(s[1..], sep);
      assert s == [s[0]] + s[1..];
      assert multiset(s) == multiset{s[0]} + multiset(s[1..]);
    }
  }

  /** A separator-free string splits into itself alone. */
  lemma {:induction false} SplitNoSep(f: string, sep: char)
    requires sep !in f
    ensures Split(f, sep) == [f]
    decreases |f|
  {
    if f != [] {
      assert sep !in f[1..];
      SplitNoSep(f[1..], sep);
      assert [f[0]] + f[1..] == f;
    }
  }

  /** Splitting at the first separator: the first field is everything before it. */
  lemma {:induction false} SplitAtFirst(f: string, t: string, sep: char)
    requires sep !in f
    ensures Split(f + [sep] + t, sep) == [f] + Split(t, sep)
    decreases |f|
  {
    var s := f + [sep] + t;
    if f == [] {
      assert s == [sep] + t && s[1..] == t;
    } else {
      assert s[0] == f[0] && s[1..] == f[1..] + [sep] + t;
      assert sep !in f[1..];
      SplitAtFirst(f[1..], t, sep);
      assert [f[0]] + f[1..] == f;
    }
  }

  /** Split inverts Join on separator-free fields. */
  lemma {:induction false} SplitJoin(fields: seq<string>, sep: char)
    requires |fields| >= 1
    requires forall i :: 0 <= i < |fields| ==> sep !in fields[i]
    ensures Split(Join(fields, sep), sep) == fields
    decreases |fields|
  {
    if |fields| == 1 {
      SplitNoSep(fields[0], sep);
    } else {
      SplitJoin(fields[1..], sep);
      SplitAtFirst(fields[0], Join(fields[1..], sep), sep);
      assert [fields[0]] + fields[1..] == fields;
    }
  }
}
