/** The pieces of Python's built-in semantics that the locale resolver relies on:
    optional strings (`str | None`), their truthiness, the `or` operator over them,
    and `str.split(sep)` with a one-character separator. */
module PythonStr {

  /** A value that is either Python's `None` or a string. */
  datatype Option<T> = None | Some(value: T)

  /** Python truthiness of an optional string: `None` and `""` are false, every
      other string is true. */
  predicate Truthy(v: Option<string>)
    ensures !Truthy(v) <==> v == None || v == Some("")
  {
    v.Some? && v.value != ""
  }

  /** Python's `a or b`: evaluates to `a` when `a` is truthy, and to `b` otherwise
      (so `"" or None` is `None`, and `None or ""` is `""`). */
  function Or(a: Option<string>, b: Option<string>): (r: Option<string>)
    ensures r == a || r == b
    ensures Truthy(r) <==> Truthy(a) || Truthy(b)
    ensures Truthy(a) ==> r == a
    ensures !Truthy(a) ==> r == b
  {
    if Truthy(a) then a else b
  }

  /** Python's `s.split(sep)` for a one-character separator: the maximal pieces of
      `s` between occurrences of `sep`, in order. An empty string splits into one
      empty piece, and every separator adds exactly one piece. */
  function Split(s: string, sep: char): (parts: seq<string>)
    ensures |parts| >= 1
    ensures forall i :: 0 <= i < |parts| ==> sep !in parts[i]
    ensures parts[0] <= s
    ensures |parts[0]| < |s| ==> s[|parts[0]|] == sep
    decreases |s|
  {
    if s == [] then
      [""]
    else
      var rest := Split(s[1..], sep);
      if s[0] == sep then
        [""] + rest
      else
        [[s[0]] + rest[0]] + rest[1..]
  }

  /** Every separator in `s` starts exactly one further piece. */
  lemma {:induction false} SplitCount(s: string, sep: char)
    ensures |Split(s, sep)| == multiset(s)[sep] + 1
    decreases |s|
  {
    if s != [] {
      SplitCount(s[1..], sep);
      assert s == [s[0]] + s[1..];
    }
  }

  /** `sep.join(parts)`: the inverse of `Split`. */
  function Join(parts: seq<string>, sep: char): (s: string)
    requires |parts| >= 1
    ensures parts[0] <= s
    ensures |parts| > 1 ==> |s| > |parts[0]| && s[|parts[0]|] == sep
    decreases |parts|
  {
    if |parts| == 1 then parts[0] else parts[0] + [sep] + Join(parts[1..], sep)
  }

  /** Joining the pieces of a split gives back the original string. */
  lemma {:induction false} JoinSplit(s: string, sep: char)
    ensures Join(Split(s, sep), sep) == s
    decreases |s|
  {
    if s != [] {
      JoinSplit(s[1..], sep);
      var rest := Split(s[1..], sep);
      if s[0] != sep {
        if |rest| == 1 {
          assert Split(s, sep) == [[s[0]] + rest[0]];
        } else {
          assert Split(s, sep)[1..] == rest[1..];
          assert Join(Split(s, sep), sep) == [s[0]] + rest[0] + [sep] + Join(rest[1..], sep);
        }
      }
    }
  }

  /** A separator-free prefix followed by a separator splits off as one piece. */
  lemma {:induction false} SplitPrefix(p: string, sep: char, t: string)
    requires sep !in p
    ensures Split(p + [sep] + t, sep) == [p] + Split(t, sep)
    decreases |p|
  {
    if p == [] {
      assert p + [sep] + t == [sep] + t;
      assert ([sep] + t)[1..] == t;
    } else {
      var q := p[1..] + [sep] + t;
      assert p + [sep] + t == [p[0]] + q;
      SplitPrefix(p[1..], sep, t);
      SplitCons(p[0], q, sep);
      assert [p[0]] + p[1..] == p;
    }
  }

  /** One step of `Split` on a first character that is not the separator. */
  lemma SplitCons(c: char, q: string, sep: char)
    requires c != sep
    ensures Split([c] + q, sep) == [[c] + Split(q, sep)[0]] + Split(q, sep)[1..]
  {
    assert ([c] + q)[1..] == q;
  }

  /** A separator-free string splits into itself alone. */
  lemma {:induction false} SplitWhole(p: string, sep: char)
    requires sep !in p
    ensures Split(p, sep) == [p]
    decreases |p|
  {
    if p != [] {
      SplitWhole(p[1..], sep);
      assert p == [p[0]] + p[1..];
    }
  }

  /** Splitting a join of separator-free pieces gives back exactly those pieces:
      `Split` is the only way to cut a string into separator-free pieces. */
  lemma {:induction false} SplitJoin(parts: seq<string>, sep: char)
    requires |parts| >= 1
    requires forall i :: 0 <= i < |parts| ==> sep !in parts[i]
    ensures Split(Join(parts, sep), sep) == parts
    decreases |parts|
  {
    if |parts| == 1 {
      SplitWhole(parts[0], sep);
    } else {
      SplitJoin(parts[1..], sep);
      SplitPrefix(parts[0], sep, Join(parts[1..], sep));
      assert parts == [parts[0]] + parts[1..];
    }
  }

  /** `s.split(sep)[0]`: the part of `s` before the first `sep`, or all of `s`
      when it holds no `sep`. */
  function BeforeFirst(s: string, sep: char): (r: string)
    ensures r <= s
    ensures sep !in r
    ensures |r| < |s| ==> s[|r|] == sep
    ensures sep !in s ==> r == s
  {
    Split(s, sep)[0]
  }

  /** Whatever follows a separator-free prefix and a separator does not affect
      `BeforeFirst`. */
  lemma DropsSuffix(prefix: string, sep: char, suffix: string)
    requires sep !in prefix
    ensures BeforeFirst(prefix + [sep] + suffix, sep) == prefix
  {
    SplitPrefix(prefix, sep, suffix);
  }
}
