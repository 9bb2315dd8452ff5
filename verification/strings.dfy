/**
 The two string operations the keyboard helper relies on: JavaScript's
 `String.prototype.split` with a one-character separator, and the first
 character code of `String.prototype.toUpperCase`.
 */
module Strings {

  /* Number of occurrences of `c` in `s`. */
  function Count(s: string, c: char): nat
  {
    if |s| == 0 then 0 else (if s[0] == c then 1 else 0) + Count(s[1..], c)
  }

  /* True iff `c` does not occur in `s`. */
  predicate Free(s: string, c: char)
  {
    forall j :: 0 <= j < |s| ==> s[j] != c
  }

  /* `s.split(sep)`: the pieces between the occurrences of `sep`, empty
     pieces included. */
  function Split(s: string, sep: char): (parts: seq<string>)
    ensures |parts| >= 1
  {
    if |s| == 0 then [""]
    else
      var rest := Split(s[1..], sep);
      if s[0] == sep then [""] + rest
      else [[s[0]] + rest[0]] + rest[1..]
  }

  /* `parts.join(sep)`. */
  function Join(parts: seq<string>, sep: char): string
  {
    if |parts| == 0 then ""
    else if |parts| == 1 then parts[0]
    else parts[0] + [sep] + Join(parts[1..], sep)
  }

  /* One unfolding of `Split` on a string written as a first character and
     the rest. */
  lemma SplitCons(c: char, t: string, sep: char)
    ensures Split([c] + t, sep) ==
      if c == sep then [""] + Split(t, sep)
      else [[c] + Split(t, sep)[0]] + Split(t, sep)[1..]
  {
    assert ([c] + t)[0] == c && ([c] + t)[1..] == t;
  }

  /* Gluing a prefix onto the first piece commutes with appending pieces. */
  lemma Glue(a: string, r: seq<string>, q: seq<string>)
    requires |r| >= 1
    ensures [a + (r + q)[0]] + (r + q)[1..] == ([a + r[0]] + r[1..]) + q
  {
    assert (r + q)[0] == r[0];
    assert (r + q)[1..] == r[1..] + q;
  }

  /* Gluing a prefix onto the first piece prefixes the join. */
  lemma JoinGlue(a: string, r: seq<string>, sep: char)
    requires |r| >= 1
    ensures Join([a + r[0]] + r[1..], sep) == a + Join(r, sep)
  {
    var g := [a + r[0]] + r[1..];
    assert g[1..] == r[1..];
  }

  /* The pieces are separator-free and there is one more of them than there
     are separators. */
  lemma {:induction false} SplitShape(s: string, sep: char)
    ensures |Split(s, sep)| == Count(s, sep) + 1
    ensures forall i :: 0 <= i < |Split(s, sep)| ==> Free(Split(s, sep)[i], sep)
  {
    if |s| > 0 {
      var t := s[1..];
      assert s == [s[0]] + t;
      SplitCons(s[0], t, sep);
      SplitShape(t, sep);
      var rest := Split(t, sep);
      var parts := Split(s, sep);
      if s[0] != sep {
        assert parts[0] == [s[0]] + rest[0];
        assert forall i :: 1 <= i < |parts| ==> parts[i] == rest[i];
      } else {
        assert forall i :: 1 <= i < |parts| ==> parts[i] == rest[i - 1];
      }
    }
  }

  /* Joining the pieces of a split with the same separator gives back the
     original string. */
  lemma {:induction false} JoinSplit(s: string, sep: char)
    ensures Join(Split(s, sep), sep) == s
  {
    if |s| > 0 {
      var t := s[1..];
      assert s == [s[0]] + t;
      SplitCons(s[0], t, sep);
      JoinSplit(t, sep);
      var rest := Split(t, sep);
      if s[0] == sep {
        var parts := [""] + rest;
        assert parts[1..] == rest;
        assert Join(parts, sep) == "" + [sep] + Join(rest, sep);
      } else {
        JoinGlue([s[0]], rest, sep);
      }
    }
  }

  /* A separator-free string splits into itself alone. */
  lemma {:induction false} SplitFree(s: string, sep: char)
    requires Free(s, sep)
    ensures Split(s, sep) == [s]
  {
    if |s| > 0 {
      var t := s[1..];
      assert s == [s[0]] + t;
      assert Free(t, sep);
      SplitCons(s[0], t, sep);
      SplitFree(t, sep);
    }
  }

  /* A separator-free prefix is glued onto the first piece of the rest. */
  lemma {:induction false} SplitPrefix(a: string, b: string, sep: char)
    requires Free(a, sep)
    ensures var r := Split(b, sep); Split(a + b, sep) == [a + r[0]] + r[1..]
  {
    var r := Split(b, sep);
    if |a| == 0 {
      assert a + b == b;
      assert a + r[0] == r[0];
      assert r == [r[0]] + r[1..];
    } else {
      var a' := a[1..];
      assert a == [a[0]] + a';
      assert a + b == [a[0]] + (a' + b);
      assert Free(a', sep);
      SplitCons(a[0], a' + b, sep);
      SplitPrefix(a', b, sep);
      assert [a[0]] + (a' + r[0]) == a + r[0];
    }
  }

  /* Splitting a join of separator-free pieces gives back the pieces. */
  lemma {:induction false} SplitJoin(parts: seq<string>, sep: char)
    requires |parts| >= 1
    requires forall i :: 0 <= i < |parts| ==> Free(parts[i], sep)
    ensures Split(Join(parts, sep), sep) == parts
  {
    if |parts| == 1 {
      SplitFree(parts[0], sep);
    } else {
      var rest := parts[1..];
      SplitJoin(rest, sep);
      var tail := [sep] + Join(rest, sep);
      assert Join(parts, sep) == parts[0] + tail;
      SplitCons(sep, Join(rest, sep), sep);
      SplitPrefix(parts[0], tail, sep);
      assert parts[0] + "" == parts[0];
      assert parts == [parts[0]] + rest;
    }
  }

  /* Splitting at a separator splits the two sides independently. */
  lemma {:induction false} SplitConcat(x: string, y: string, sep: char)
    ensures Split(x + [sep] + y, sep) == Split(x, sep) + Split(y, sep)
  {
    if |x| == 0 {
      assert x + [sep] + y == [sep] + y;
      SplitCons(sep, y, sep);
    } else {
      var t := x[1..] + [sep] + y;
      assert x + [sep] + y == [x[0]] + t;
      assert x == [x[0]] + x[1..];
      SplitCons(x[0], t, sep);
      SplitCons(x[0], x[1..], sep);
      SplitConcat(x[1..], y, sep);
      var r := Split(x[1..], sep);
      var q := Split(y, sep);
      if x[0] == sep {
        assert [""] + (r + q) == ([""] + r) + q;
      } else {
        Glue([x[0]], r, q);
      }
    }
  }

  /* The code unit JavaScript reports for `c` after upper-casing: ASCII
     lower-case letters move to their capitals, every other character keeps
     its code. */
  function UpperCode(c: char): (code: int)
    ensures 'a' <= c <= 'z' ==> 'A' as int <= code <= 'Z' as int
    ensures 'a' <= c <= 'z' ==> code - 'A' as int == c as int - 'a' as int
    ensures !('a' <= c <= 'z') ==> code == c as int
  {
    if 'a' <= c <= 'z' then c as int - 32 else c as int
  }
}
