/** ASCII models of the JavaScript string primitives the application relies on:
    `split` on one character, `join`, `trim`, `toLowerCase`/`toUpperCase`,
    `startsWith`, `includes` and a global one-character `replace`. */
module Strings {

  /** Number of occurrences of `c` in `s`. */
  function Count(s: string, c: char): nat {
    if |s| == 0 then 0
    else (if s[0] == c then 1 else 0) + Count(s[1..], c)
  }

  /** `s.split(sep)` for a one-character separator: the pieces between separators,
      including empty ones; the empty string splits into one empty piece. */
  function Split(s: string, sep: char): (parts: seq<string>)
    ensures |parts| >= 1
    decreases |s|
  {
    if |s| == 0 then [""]
    else
      var rest := Split(s[1..], sep);
      if s[0] == sep then [""] + rest
      else [[s[0]] + rest[0]] + rest[1..]
  }

  /** `parts.join(sep)` */
  function Join(parts: seq<string>, sep: string): string {
    if |parts| == 0 then ""
    else if |parts| == 1 then parts[0]
    else parts[0] + sep + Join(parts[1..], sep)
  }

  /** Joining with one more piece at the end appends the separator and that piece. */
  lemma {:induction false} JoinSnoc(parts: seq<string>, x: string, sep: string)
    requires |parts| >= 1
    ensures Join(parts + [x], sep) == Join(parts, sep) + sep + x
    decreases |parts|
  {
    if |parts| == 1 {
      assert (parts + [x])[1..] == [x];
    } else {
      assert (parts + [x])[1..] == parts[1..] + [x];
      JoinSnoc(parts[1..], x, sep);
    }
  }

  /** Splitting yields one more piece than there are separators. */
  lemma {:induction false} SplitCount(s: string, sep: char)
    ensures |Split(s, sep)| == Count(s, sep) + 1
    decreases |s|
  {
    if |s| > 0 {
      SplitCount(s[1..], sep);
    }
  }

  /** No piece produced by `Split` contains the separator. */
  lemma {:induction false} SplitPiecesFree(s: string, sep: char)
    ensures forall i, j :: 0 <= i < |Split(s, sep)| && 0 <= j < |Split(s, sep)[i]| ==> Split(s, sep)[i][j] != sep
    decreases |s|
  {
    if |s| > 0 {
      SplitPiecesFree(s[1..], sep);
      var rest := Split(s[1..], sep);
      if s[0] != sep {
        var parts := Split(s, sep);
        assert parts == [[s[0]] + rest[0]] + rest[1..];
        forall i, j | 0 <= i < |parts| && 0 <= j < |parts[i]|
          ensures parts[i][j] != sep
        {
          if i == 0 {
            if j > 0 {
              assert parts[0][j] == rest[0][j - 1];
            }
          } else {
            assert parts[i] == rest[i];
          }
        }
      }
    }
  }

  /** Joining the pieces back with the separator restores the original string. */
  lemma {:induction false} SplitJoin(s: string, sep: char)
    ensures Join(Split(s, sep), [sep]) == s
    decreases |s|
  {
    if |s| > 0 {
      var rest := Split(s[1..], sep);
      SplitJoin(s[1..], sep);
      if s[0] == sep {
        assert Split(s, sep) == [""] + rest;
        assert ([""] + rest)[1..] == rest;
      } else {
        var parts := Split(s, sep);
        assert parts == [[s[0]] + rest[0]] + rest[1..];
        if |rest| == 1 {
          assert parts == [[s[0]] + rest[0]];
          assert s == [s[0]] + s[1..];
        } else {
          assert parts[1..] == rest[1..];
          assert Join(rest, [sep]) == rest[0] + [sep] + Join(rest[1..], [sep]);
          assert s == [s[0]] + s[1..];
        }
      }
    }
  }

  /** A separator-free head before the first separator is the first piece. */
  lemma {:induction false} SplitPrefix(head: string, rest: string, sep: char)
    requires forall i :: 0 <= i < |head| ==> head[i] != sep
    ensures Split(head + [sep] + rest, sep) == [head] + Split(rest, sep)
    decreases |head|
  {
    var s := head + [sep] + rest;
    if |head| == 0 {
      assert s[1..] == rest;
    } else {
      assert s[1..] == head[1..] + [sep] + rest;
      SplitPrefix(head[1..], rest, sep);
      assert [s[0]] + head[1..] == head;
    }
  }

  /** The whitespace characters `trim` removes (ASCII subset). */
  predicate IsSpace(c: char) {
    c == ' ' || c == '\t' || c == '\n' || c == '\r' || c == '\U{000B}' || c == '\U{000C}'
  }

  /** Number of whitespace characters `s` starts with. */
  function LeadingSpaces(s: string): (n: nat)
    ensures n <= |s|
    ensures forall i :: 0 <= i < n ==> IsSpace(s[i])
    ensures n < |s| ==> !IsSpace(s[n])
  {
    if |s| > 0 && IsSpace(s[0]) then 1 + LeadingSpaces(s[1..]) else 0
  }

  /** Length of `s` without the whitespace it ends with. */
  function KeptLength(s: string): (n: nat)
    ensures n <= |s|
    ensures forall i :: n <= i < |s| ==> IsSpace(s[i])
    ensures n > 0 ==> !IsSpace(s[n - 1])
  {
    if |s| > 0 && IsSpace(s[|s| - 1]) then KeptLength(s[..|s| - 1]) else |s|
  }

  /** `s.trim()`: the contiguous piece of `s` left after its leading and trailing
      whitespace, so it neither starts nor ends with whitespace, and it is empty
      exactly when `s` is all whitespace. */
  function Trim(s: string): (r: string)
    ensures var a := LeadingSpaces(s); a + |r| <= |s| && r == s[a..a + |r|]
    ensures |r| > 0 ==> !IsSpace(r[0]) && !IsSpace(r[|r| - 1])
    ensures r == "" <==> forall i :: 0 <= i < |s| ==> IsSpace(s[i])
    ensures forall i :: 0 <= i < LeadingSpaces(s) ==> IsSpace(s[i])
    ensures forall i :: LeadingSpaces(s) + |r| <= i < |s| ==> IsSpace(s[i])
  {
    var a := LeadingSpaces(s);
    var t := s[a..];
    DropThenTake(s, a, KeptLength(t));
    TrimKeepsInside(s, a, t);
    TrimDropsTrailing(s, a, t);
    TrimBlank(s, a, t);
    t[..KeptLength(t)]
  }

  /** Dropping `a` characters and then keeping `e` is one slice of `s`. */
  lemma DropThenTake(s: string, a: nat, e: nat)
    requires a + e <= |s|
    ensures s[a..][..e] == s[a..a + e]
  {
  }

  /** What `Trim` keeps fits in `s` and starts and ends with a non-whitespace character. */
  lemma TrimKeepsInside(s: string, a: nat, t: string)
    requires a == LeadingSpaces(s) && t == s[a..]
    ensures a + KeptLength(t) <= |s|
    ensures KeptLength(t) > 0 ==> !IsSpace(t[0]) && !IsSpace(t[KeptLength(t) - 1])
  {
    if KeptLength(t) > 0 {
      assert t[0] == s[a];
    }
  }

  /** Everything after what `Trim` keeps is whitespace. */
  lemma TrimDropsTrailing(s: string, a: nat, t: string)
    requires a <= |s| && t == s[a..]
    ensures forall i :: a + KeptLength(t) <= i < |s| ==> IsSpace(s[i])
  {
    var e := KeptLength(t);
    forall i | a + e <= i < |s|
      ensures IsSpace(s[i])
    {
      assert e <= i - a < |t| && t[i - a] == s[i];
    }
  }

  /** Nothing is kept exactly when every character is whitespace: a non-whitespace
      character stops the leading run and is the first thing kept. */
  lemma TrimBlank(s: string, a: nat, t: string)
    requires a == LeadingSpaces(s) && t == s[a..]
    ensures KeptLength(t) == 0 <==> forall i :: 0 <= i < |s| ==> IsSpace(s[i])
  {
    if a < |s| {
      assert t[0] == s[a];
    }
  }

  function LowerChar(c: char): char {
    if 'A' <= c <= 'Z' then (c as int + 32) as char else c
  }

  function UpperChar(c: char): char {
    if 'a' <= c <= 'z' then (c as int - 32) as char else c
  }

  /** `s.toLowerCase()` on ASCII letters. */
  function Lower(s: string): (r: string)
    ensures |r| == |s|
    ensures forall i :: 0 <= i < |s| ==> r[i] == LowerChar(s[i])
  {
    seq(|s|, i requires 0 <= i < |s| => LowerChar(s[i]))
  }

  /** `s.toUpperCase()` on ASCII letters. */
  function Upper(s: string): (r: string)
    ensures |r| == |s|
    ensures forall i :: 0 <= i < |s| ==> r[i] == UpperChar(s[i])
  {
    seq(|s|, i requires 0 <= i < |s| => UpperChar(s[i]))
  }

  /** `s.startsWith(p)` */
  predicate StartsWith(s: string, p: string) {
    |p| <= |s| && s[..|p|] == p
  }

  /** `s.includes(sub)` */
  predicate Contains(s: string, sub: string) {
    exists i :: 0 <= i <= |s| - |sub| && OccursAt(s, sub, i)
  }

  predicate OccursAt(s: string, sub: string, i: int)
    requires 0 <= i <= |s| - |sub|
  {
    s[i..i + |sub|] == sub
  }

  /** `s.replace(/from/g, to)` for single characters. */
  function ReplaceAll(s: string, from: char, to: char): (r: string)
    ensures |r| == |s|
    ensures forall i :: 0 <= i < |s| ==> r[i] == (if s[i] == from then to else s[i])
  {
    if |s| == 0 then ""
    else [if s[0] == from then to else s[0]] + ReplaceAll(s[1..], from, to)
  }
}
