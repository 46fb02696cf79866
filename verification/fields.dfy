/**
 Joining strings with a one-character separator, and splitting them again.
 The canonical request and the string to sign are newline-joined field
 lists, and the credential scope is a slash-joined path; `Split` is the
 reference reading of such a string back into its fields.
 */
module Fields {

  /** `fields` with `sep` between consecutive elements (Rust's `[..].join`). */
  function Join(fields: seq<string>, sep: char): string
  {
    if |fields| <= 1 then (if fields == [] then "" else fields[0])
    else fields[0] + [sep] + Join(fields[1..], sep)
  }

  /** The maximal `sep`-free pieces of `s`, in order (Rust's `str::split`). */
  function Split(s: string, sep: char): (r: seq<string>)
    ensures |r| >= 1
    ensures forall i :: 0 <= i < |r| ==> sep !in r[i]
  {
    if s == [] then [""]
    else
      var rest := Split(s[1..], sep);
      if s[0] == sep then [""] + rest
      else [[s[0]] + rest[0]] + rest[1..]
  }

  /** True when no field contains the separator. */
  predicate SepFree(fields: seq<string>, sep: char) {
    forall i :: 0 <= i < |fields| ==> sep !in fields[i]
  }

  /** Splitting a single separator-free piece followed by more text. */
  lemma {:induction false} SplitPrefix(a: string, sep: char, tail: string)
    requires sep !in a
    ensures Split(a + [sep] + tail, sep) == [a] + Split(tail, sep)
    ensures Split(a, sep) == [a]
  {
    if a == [] {
      assert a + [sep] + tail == [sep] + tail;
      assert ([sep] + tail)[1..] == tail;
    } else {
      assert (a + [sep] + tail)[1..] == a[1..] + [sep] + tail;
      SplitPrefix(a[1..], sep, tail);
      assert [a[0]] + a[1..] == a;
    }
  }

  /** Splitting four separator-free pieces joined by the separator. */
  lemma SplitFour(a: string, b: string, c: string, d: string, sep: char)
    requires sep !in a && sep !in b && sep !in c && sep !in d
    ensures Split(a + [sep] + b + [sep] + c + [sep] + d, sep) == [a, b, c, d]
  {
    var cd := c + [sep] + d;
    var bcd := b + [sep] + cd;
    Assoc(a + [sep] + b + [sep] + c, [sep], d);
    Assoc(a + [sep] + b + [sep], c, [sep] + d);
    Assoc(a + [sep] + b, [sep], c + [sep] + d);
    Assoc(c, [sep], d);
    Assoc(a + [sep], b, [sep] + cd);
    Assoc(b, [sep], cd);
    Assoc(a, [sep], bcd);
    assert a + [sep] + b + [sep] + c + [sep] + d == a + [sep] + bcd;
    SplitPrefix(d, sep, []);
    SplitPrefix(c, sep, d);
    assert Split(cd, sep) == [c, d];
    SplitPrefix(b, sep, cd);
    assert Split(bcd, sep) == [b, c, d];
    SplitPrefix(a, sep, bcd);
  }

  /** Splitting a join of separator-free fields gives the fields back. */
  lemma {:induction false} SplitJoin(fields: seq<string>, sep: char)
    requires |fields| >= 1 && SepFree(fields, sep)
    ensures Split(Join(fields, sep), sep) == fields
  {
    if |fields| == 1 {
      SplitPrefix(fields[0], sep, "");
    } else {
      SplitJoin(fields[1..], sep);
      SplitPrefix(fields[0], sep, Join(fields[1..], sep));
      assert [fields[0]] + fields[1..] == fields;
    }
  }

  /** Joining the pieces of a split gives the string back. */
  lemma {:induction false} JoinSplit(s: string, sep: char)
    ensures Join(Split(s, sep), sep) == s
  {
    if s != [] {
      JoinSplit(s[1..], sep);
      var rest := Split(s[1..], sep);
      if s[0] == sep {
        assert Join([""] + rest, sep) == "" + [sep] + Join(rest, sep);
      } else {
        var r := [[s[0]] + rest[0]] + rest[1..];
        assert r[1..] == rest[1..];
        if |rest| == 1 {
          assert Join(r, sep) == [s[0]] + rest[0];
        } else {
          assert rest == [rest[0]] + rest[1..];
          assert Join(rest, sep) == rest[0] + [sep] + Join(rest[1..], sep);
        }
        assert s == [s[0]] + s[1..];
      }
    }
  }

  /** Regrouping a concatenation of three parts. */
  lemma Assoc<T>(a: seq<T>, b: seq<T>, c: seq<T>)
    ensures a + (b + c) == a + b + c
  {
  }

  /** Two concatenations with equally long first parts are equal part by part. */
  lemma ConcatCancel<T>(x1: seq<T>, y1: seq<T>, x2: seq<T>, y2: seq<T>)
    requires x1 + y1 == x2 + y2
    requires |x1| == |x2| || |y1| == |y2|
    ensures x1 == x2 && y1 == y2
  {
    assert x1 == (x1 + y1)[..|x1|];
    assert x2 == (x2 + y2)[..|x2|];
    assert y1 == (x1 + y1)[|x1|..];
    assert y2 == (x2 + y2)[|x2|..];
  }

  /** The three parts of a three-part concatenation, recovered by slicing at their lengths. */
  lemma Slices3<T>(a: seq<T>, b: seq<T>, c: seq<T>)
    ensures (a + b + c)[..|a|] == a
    ensures (a + b + c)[|a|..|a| + |b|] == b
    ensures (a + b + c)[|a| + |b|..] == c
  {
    var s := a + b + c;
    ConcatCancel(s[..|a| + |b|], s[|a| + |b|..], a + b, c);
    ConcatCancel(s[..|a|], s[|a|..|a| + |b|], a, b);
    assert s[..|a| + |b|][..|a|] == s[..|a|];
    assert s[..|a| + |b|][|a|..] == s[|a|..|a| + |b|];
  }
}
