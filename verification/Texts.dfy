/** Splitting a string at a separator, as JavaScript and Python do. */
module Texts {
  function Split(s: string, c: char): (parts: seq<string>)
    ensures |parts| >= 1
  {
    if s == "" then [""]
    else
      var rest := Split(s[1..], c);
      if s[0] == c then [""] + rest else [[s[0]] + rest[0]] + rest[1..]
  }

  lemma {:induction false} SplitWhole(s: string, c: char)
    requires c !in s
    ensures Split(s, c) == [s]
  {
    if s != "" {
      SplitWhole(s[1..], c);
      assert [s[0]] + s[1..] == s;
    }
  }

  lemma {:induction false} SplitAt(a: string, b: string, c: char)
    requires c !in a
    ensures Split(a + [c] + b, c) == [a] + Split(b, c)
  {
    if a == "" {
      assert ("" + [c] + b)[1..] == b;
    } else {
      SplitAt(a[1..], b, c);
      assert (a + [c] + b)[1..] == a[1..] + [c] + b;
      assert [a[0]] + a[1..] == a;
    }
  }

  /** A separator between two texts separates their parts. */
  lemma {:induction false} SplitBetween(a: string, b: string, c: char)
    ensures Split(a + [c] + b, c) == Split(a, c) + Split(b, c)
  {
    if a == "" {
      assert ("" + [c] + b)[1..] == b;
      assert Split("", c) == [""];
    } else {
      SplitBetween(a[1..], b, c);
      assert (a + [c] + b)[1..] == a[1..] + [c] + b;
      FirstJoined(a[0], Split(a[1..], c), Split(b, c), c);
    }
  }

  /** What splitting does with a first character. */
  function Joined(first: char, rest: seq<string>, c: char): seq<string>
    requires rest != []
  {
    if first == c then [""] + rest else [[first] + rest[0]] + rest[1..]
  }

  lemma FirstJoined(first: char, rest: seq<string>, more: seq<string>, c: char)
    requires rest != []
    ensures Joined(first, rest + more, c) == Joined(first, rest, c) + more
  {
    assert (rest + more)[0] == rest[0] && (rest + more)[1..] == rest[1..] + more;
  }

  function Rejoin(parts: seq<string>, c: char): string
    requires parts != []
  {
    if |parts| == 1 then parts[0] else parts[0] + [c] + Rejoin(parts[1..], c)
  }

  /** The parts put together again are the text, and none of them has the separator in it. */
  lemma {:induction false} SplitBack(s: string, c: char)
    ensures Rejoin(Split(s, c), c) == s && forall i :: 0 <= i < |Split(s, c)| ==> c !in Split(s, c)[i]
  {
    if s != "" {
      SplitBack(s[1..], c);
      var rest := Split(s[1..], c);
      assert s == [s[0]] + s[1..];
      if s[0] == c {
        assert ([""] + rest)[1..] == rest;
      } else {
        var all := [[s[0]] + rest[0]] + rest[1..];
        assert all[1..] == rest[1..];
        if |rest| > 1 {
          assert Rejoin(all, c) == [s[0]] + (rest[0] + [c] + Rejoin(rest[1..], c));
        }
      }
    }
  }
}
