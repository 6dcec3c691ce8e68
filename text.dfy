/** Python's `str.split(sep)` and `sep.join(parts)` for a one-character separator,
    with the two round trips that relate them. */
module Text {

  /** `s.split(sep)`: the separator-free runs of `s`, in order. Every occurrence of
      `sep` ends a part, so `k` separators give `k + 1` parts (possibly empty ones). */
  function Split(s: string, sep: char): (parts: seq<string>)
    ensures |parts| == multiset(s)[sep] + 1
    ensures forall i :: 0 <= i < |parts| ==> sep !in parts[i]
    decreases |s|
  {
    if |s| == 0 then [""]
    else
      var rest := Split(s[1..], sep);
      assert s == [s[0]] + s[1..];
      if s[0] == sep then [""] + rest
      else [[s[0]] + rest[0]] + rest[1..]
  }

  /** `sep.join(parts)`: the parts with one `sep` between each neighbouring pair;
      the empty list joins to the empty string. */
  function Join(sep: char, parts: seq<string>): (s: string)
    decreases |parts|
  {
    if |parts| == 0 then ""
    else if |parts| == 1 then parts[0]
    else parts[0] + [sep] + Join(sep, parts[1..])
  }

  /** Prefixing the first part of a join prefixes the joined string. */
  lemma {:induction false} JoinExtendFirst(sep: char, x: string, y: string, tail: seq<string>)
    ensures Join(sep, [x + y] + tail) == x + Join(sep, [y] + tail)
  {
    if |tail| > 0 {
      assert ([x + y] + tail)[1..] == tail;
      assert ([y] + tail)[1..] == tail;
    }
  }

  /** One step of `Split`: the first character either ends the first part or joins it. */
  lemma SplitCons(s: string, sep: char)
    requires |s| > 0
    ensures var rest := Split(s[1..], sep);
      Split(s, sep) == if s[0] == sep then [""] + rest else [[s[0]] + rest[0]] + rest[1..]
  {
  }

  /** An empty first part puts a separator in front of the join of the rest. */
  lemma JoinEmptyFirst(sep: char, rest: seq<string>)
    requires |rest| > 0
    ensures Join(sep, [""] + rest) == [sep] + Join(sep, rest)
  {
    assert ([""] + rest)[1..] == rest;
  }

  /** Joining what `split` produced gives back the original string. */
  lemma {:induction false} JoinSplit(s: string, sep: char)
    ensures Join(sep, Split(s, sep)) == s
    decreases |s|
  {
    if |s| > 0 {
      var rest := Split(s[1..], sep);
      JoinSplit(s[1..], sep);
      SplitCons(s, sep);
      if s[0] == sep {
        JoinEmptyFirst(sep, rest);
      } else {
        JoinExtendFirst(sep, [s[0]], rest[0], rest[1..]);
        assert [rest[0]] + rest[1..] == rest;
      }
      assert s == [s[0]] + s[1..];
    }
  }

  /** One more separator-free character in front extends the first part. */
  lemma SplitFreeStep(a: string, t: string, sep: char, head: string, tail: seq<string>)
    requires |a| > 0 && a[0] != sep
    requires Split(a[1..] + t, sep) == [a[1..] + head] + tail
    ensures Split(a + t, sep) == [a + head] + tail
  {
    assert (a + t)[1..] == a[1..] + t;
    SplitCons(a + t, sep);
    assert ([a[1..] + head] + tail)[1..] == tail;
    assert [a[0]] + (a[1..] + head) == a + head;
  }

  /** A separator-free prefix `a` becomes the head of the first part. */
  lemma {:induction false} SplitFreePrefix(a: string, t: string, sep: char)
    requires sep !in a
    ensures Split(a + t, sep) == [a + Split(t, sep)[0]] + Split(t, sep)[1..]
    decreases |a|
  {
    if |a| > 0 {
      SplitFreePrefix(a[1..], t, sep);
      SplitFreeStep(a, t, sep, Split(t, sep)[0], Split(t, sep)[1..]);
    } else {
      assert a + t == t && a + Split(t, sep)[0] == Split(t, sep)[0];
      assert [Split(t, sep)[0]] + Split(t, sep)[1..] == Split(t, sep);
    }
  }

  /** A string without the separator splits into itself alone. */
  lemma SplitWithoutSeparator(s: string, sep: char)
    requires sep !in s
    ensures Split(s, sep) == [s]
  {
    SplitFreePrefix(s, "", sep);
    assert s + "" == s;
  }

  /** Splitting at the first separator: the text before it is the first part and
      the parts of the text after it follow. */
  lemma SplitAtFirst(a: string, b: string, sep: char)
    requires sep !in a
    ensures Split(a + [sep] + b, sep) == [a] + Split(b, sep)
  {
    SplitFreePrefix(a, [sep] + b, sep);
    assert a + [sep] + b == a + ([sep] + b);
    assert ([sep] + b)[1..] == b;
    assert Split([sep] + b, sep) == [""] + Split(b, sep);
    assert ([""] + Split(b, sep))[1..] == Split(b, sep);
    assert a + "" == a;
  }

  /** Splitting what `join` produced gives back the parts, provided there is at least
      one part and no part contains the separator. */
  lemma {:induction false} SplitJoin(parts: seq<string>, sep: char)
    requires |parts| > 0
    requires forall i :: 0 <= i < |parts| ==> sep !in parts[i]
    ensures Split(Join(sep, parts), sep) == parts
    decreases |parts|
  {
    if |parts| == 1 {
      SplitWithoutSeparator(parts[0], sep);
    } else {
      SplitJoin(parts[1..], sep);
      SplitAtFirst(parts[0], Join(sep, parts[1..]), sep);
      assert [parts[0]] + parts[1..] == parts;
    }
  }
}
