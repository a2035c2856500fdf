/** Text helpers with the semantics of the JavaScript string methods that the
    server and the browser client rely on: `split`, `join`, `indexOf`,
    `includes`, `startsWith`, `endsWith`, `trim` and `toLowerCase`. */
module Strings {

  /** `s.split(sep)` for a one-character separator: every occurrence of `sep`
      cuts, so empty parts survive and the result is never empty. */
  function Split(s: string, sep: char): (parts: seq<string>)
    ensures |parts| >= 1
    ensures forall i :: 0 <= i < |parts| ==> sep !in parts[i]
    decreases |s|
  {
    if |s| == 0 then [""]
    else
      var rest := Split(s[1..], sep);
      if s[0] == sep then [""] + rest
      else [[s[0]] + rest[0]] + rest[1..]
  }

  /** `parts.join(sep)`. */
  function Join(parts: seq<string>, sep: char): string
  {
    if |parts| == 0 then ""
    else if |parts| == 1 then parts[0]
    else parts[0] + [sep] + Join(parts[1..], sep)
  }

  /** Joining one more part adds a separator and the part. */
  lemma {:induction false} JoinSnoc(xs: seq<string>, sep: char, x: string)
    requires |xs| > 0
    ensures Join(xs + [x], sep) == Join(xs, sep) + [sep] + x
    decreases |xs|
  {
    var all := xs + [x];
    if |xs| == 1 {
      assert all[1..] == [x];
      assert Join(all, sep) == xs[0] + [sep] + x;
    } else {
      assert all[1..] == xs[1..] + [x];
      JoinSnoc(xs[1..], sep, x);
      var head, rest := xs[0], Join(xs[1..], sep);
      assert Join(all, sep) == head + [sep] + (rest + [sep] + x);
      assert Join(xs, sep) == head + [sep] + rest;
      assert head + [sep] + (rest + [sep] + x) == (head + [sep] + rest) + [sep] + x;
    }
  }

  /** Joining the parts of a split gives back the original text. */
  lemma {:induction false} JoinSplit(s: string, sep: char)
    ensures Join(Split(s, sep), sep) == s
    decreases |s|
  {
    if |s| > 0 {
      JoinSplit(s[1..], sep);
      var rest := Split(s[1..], sep);
      if s[0] == sep {
        assert Split(s, sep) == [""] + rest;
        assert ([""] + rest)[1..] == rest;
      } else if |rest| == 1 {
        assert Join(rest, sep) == rest[0];
      } else {
        var parts := Split(s, sep);
        assert parts[1..] == rest[1..];
        assert Join(rest, sep) == rest[0] + [sep] + Join(rest[1..], sep);
      }
    }
  }

  /** A text without the separator splits into itself alone. */
  lemma {:induction false} SplitNoSep(s: string, sep: char)
    requires sep !in s
    ensures Split(s, sep) == [s]
    decreases |s|
  {
    if |s| > 0 {
      assert sep !in s[1..];
      SplitNoSep(s[1..], sep);
      assert s[0] != sep;
      assert [s[0]] + s[1..] == s;
    }
  }

  /** A separator in the middle splits into the parts of both sides. */
  lemma {:induction false} SplitAround(a: string, sep: char, b: string)
    ensures Split(a + [sep] + b, sep) == Split(a, sep) + Split(b, sep)
    decreases |a|
  {
    if |a| == 0 {
      assert a + [sep] + b == [sep] + b;
      SplitCons(sep, b, sep);
    } else {
      var t := a[1..] + [sep] + b;
      SplitAround(a[1..], sep, b);
      SplitPrefixStep(a[0], a[1..], t, sep, Split(b, sep));
      assert [a[0]] + a[1..] == a;
      assert [a[0]] + t == a + [sep] + b;
    }
  }

  /** The step of `SplitAround`: when `t` splits into the parts of `a` and
      then `more`, the same character in front of both keeps that so. */
  lemma SplitPrefixStep(c: char, a: string, t: string, sep: char, more: seq<string>)
    requires Split(t, sep) == Split(a, sep) + more
    ensures Split([c] + t, sep) == Split([c] + a, sep) + more
  {
    if c == sep {
      SplitPrefixSep(c, a, t, sep, more);
    } else {
      SplitPrefixOther(c, a, t, sep, more);
    }
  }

  lemma SplitPrefixSep(c: char, a: string, t: string, sep: char, more: seq<string>)
    requires c == sep
    requires Split(t, sep) == Split(a, sep) + more
    ensures Split([c] + t, sep) == Split([c] + a, sep) + more
  {
    var ra := Split(a, sep);
    SplitCons(c, t, sep);
    SplitCons(c, a, sep);
    assert [""] + (ra + more) == ([""] + ra) + more;
  }

  lemma SplitPrefixOther(c: char, a: string, t: string, sep: char, more: seq<string>)
    requires c != sep
    requires Split(t, sep) == Split(a, sep) + more
    ensures Split([c] + t, sep) == Split([c] + a, sep) + more
  {
    SplitCons(c, t, sep);
    SplitCons(c, a, sep);
    ExtendFirst([c], Split(a, sep), more);
  }

  /** Extending the first of several parts commutes with appending more
      parts. */
  lemma ExtendFirst(x: string, parts: seq<string>, more: seq<string>)
    requires |parts| >= 1
    ensures [x + (parts + more)[0]] + (parts + more)[1..] == ([x + parts[0]] + parts[1..]) + more
  {
    assert (parts + more)[0] == parts[0];
    assert (parts + more)[1..] == parts[1..] + more;
  }

  /** One character in front: a separator opens an empty part, any other
      character joins the first part. */
  lemma SplitCons(c: char, t: string, sep: char)
    ensures var rest := Split(t, sep);
      Split([c] + t, sep) == if c == sep then [""] + rest else [[c] + rest[0]] + rest[1..]
  {
    assert ([c] + t)[0] == c && ([c] + t)[1..] == t;
  }

  /** Splitting a join recovers the parts, provided no part holds the separator. */
  lemma {:induction false} SplitJoin(parts: seq<string>, sep: char)
    requires |parts| >= 1
    requires forall i :: 0 <= i < |parts| ==> sep !in parts[i]
    ensures Split(Join(parts, sep), sep) == parts
    decreases |parts|
  {
    if |parts| == 1 {
      SplitNoSep(parts[0], sep);
    } else {
      SplitJoin(parts[1..], sep);
      SplitNoSep(parts[0], sep);
      SplitAround(parts[0], sep, Join(parts[1..], sep));
      assert [parts[0]] + parts[1..] == parts;
    }
  }

  /** The last part of a split is the text after the last separator. */
  lemma SplitLastAfterSep(a: string, sep: char, b: string)
    requires sep !in b
    ensures Split(a + [sep] + b, sep)[|Split(a + [sep] + b, sep)| - 1] == b
  {
    SplitAround(a, sep, b);
    SplitNoSep(b, sep);
  }

  /** `list.filter(s => s !== '')`: the non-empty strings, in order. */
  function DropEmpty(list: seq<string>): (r: seq<string>)
    ensures forall e :: e in r <==> e in list && e != ""
    ensures |r| <= |list|
    decreases |list|
  {
    if |list| == 0 then []
    else (if list[0] == "" then [] else [list[0]]) + DropEmpty(list[1..])
  }

  /** Filtering distributes over concatenation. */
  lemma {:induction false} DropEmptyAppend(a: seq<string>, b: seq<string>)
    ensures DropEmpty(a + b) == DropEmpty(a) + DropEmpty(b)
    decreases |a|
  {
    if |a| == 0 {
      assert a + b == b;
    } else {
      var x, y, z := (if a[0] == "" then [] else [a[0]]), DropEmpty(a[1..]), DropEmpty(b);
      assert DropEmpty(a + b) == x + (y + z) by {
        assert (a + b)[1..] == a[1..] + b;
        DropEmptyAppend(a[1..], b);
      }
      assert x + (y + z) == (x + y) + z;
    }
  }

  /** `s` holds `sub` starting at position `j`. */
  predicate OccursAt(s: string, sub: string, j: int)
  {
    0 <= j && j + |sub| <= |s| && s[j..j + |sub|] == sub
  }

  /** `s.indexOf(sub)`: the first position where `sub` occurs, or -1. */
  function IndexOf(s: string, sub: string): (i: int)
    ensures i == -1 || OccursAt(s, sub, i)
    ensures i >= -1
    ensures forall j :: 0 <= j && (i == -1 || j < i) ==> !OccursAt(s, sub, j)
    decreases |s|
  {
    if |s| < |sub| then -1
    else if s[..|sub|] == sub then 0
    else
      var r := IndexOf(s[1..], sub);
      assert forall j :: 0 <= j ==> (OccursAt(s, sub, j + 1) <==> OccursAt(s[1..], sub, j)) by {
        forall j | 0 <= j
          ensures OccursAt(s, sub, j + 1) <==> OccursAt(s[1..], sub, j)
        {
          OccursShift(s, sub, j);
        }
      }
      if r < 0 then
        assert forall j :: 1 <= j ==> !OccursAt(s, sub, j) by {
          forall j | 1 <= j ensures !OccursAt(s, sub, j) {
            assert !OccursAt(s[1..], sub, j - 1);
          }
        }
        -1
      else
        assert forall j :: 1 <= j < r + 1 ==> !OccursAt(s, sub, j) by {
          forall j | 1 <= j < r + 1 ensures !OccursAt(s, sub, j) {
            assert !OccursAt(s[1..], sub, j - 1);
          }
        }
        assert OccursAt(s[1..], sub, r);
        r + 1
  }

  /** An occurrence one position further in `s` is an occurrence in `s`
      without its first character. */
  lemma OccursShift(s: string, sub: string, j: nat)
    requires |s| > 0
    ensures OccursAt(s, sub, j + 1) <==> OccursAt(s[1..], sub, j)
  {
    if j + 1 + |sub| <= |s| {
      var a, b := s[j + 1..j + 1 + |sub|], s[1..][j..j + |sub|];
      assert |a| == |b|;
      assert forall k :: 0 <= k < |a| ==> a[k] == b[k];
      assert a == b;
    }
  }

  /** `s.includes(sub)`. */
  predicate Contains(s: string, sub: string)
  {
    IndexOf(s, sub) >= 0
  }

  /** `includes` holds exactly when `sub` occurs somewhere in `s`. */
  lemma ContainsIff(s: string, sub: string)
    ensures Contains(s, sub) <==> exists j :: OccursAt(s, sub, j)
  {
    if !Contains(s, sub) {
      forall j ensures !OccursAt(s, sub, j) {
        if 0 <= j {
          assert !OccursAt(s, sub, j);
        }
      }
    }
  }

  /** `s.startsWith(p)`. */
  predicate StartsWith(s: string, p: string)
  {
    |p| <= |s| && s[..|p|] == p
  }

  /** `s.endsWith(p)`. */
  predicate EndsWith(s: string, p: string)
  {
    |p| <= |s| && s[|s| - |p|..] == p
  }

  /** The characters `trim` removes (the ASCII ones; see README). */
  predicate IsSpace(c: char)
  {
    c == ' ' || c == '\t' || c == '\n' || c == '\r' || c == 11 as char || c == 12 as char
  }

  /** Number of leading white-space characters. */
  function LeadingSpaces(s: string): (k: nat)
    ensures k <= |s|
    ensures forall i :: 0 <= i < k ==> IsSpace(s[i])
    ensures k < |s| ==> !IsSpace(s[k])
    decreases |s|
  {
    if |s| > 0 && IsSpace(s[0]) then 1 + LeadingSpaces(s[1..]) else 0
  }

  /** Number of trailing white-space characters. */
  function TrailingSpaces(s: string): (k: nat)
    ensures k <= |s|
    ensures forall i :: |s| - k <= i < |s| ==> IsSpace(s[i])
    ensures k < |s| ==> !IsSpace(s[|s| - k - 1])
    decreases |s|
  {
    if |s| > 0 && IsSpace(s[|s| - 1]) then 1 + TrailingSpaces(s[..|s| - 1]) else 0
  }

  /** `s.trim()`: drops white space at both ends and keeps the middle intact. */
  function Trim(s: string): (r: string)
    ensures |r| <= |s|
  {
    var a := LeadingSpaces(s);
    var t := s[a..];
    s[a..a + |t| - TrailingSpaces(t)]
  }

  /** Trimming removes only white space, and only at the ends: the result is
      a slice of the text with white space before and after it, and neither
      starts nor ends with white space. */
  lemma TrimSlice(s: string)
    ensures exists a, b ::
              && 0 <= a <= b <= |s| && Trim(s) == s[a..b]
              && (forall i :: 0 <= i < a ==> IsSpace(s[i]))
              && (forall i :: b <= i < |s| ==> IsSpace(s[i]))
    ensures |Trim(s)| > 0 ==> !IsSpace(Trim(s)[0]) && !IsSpace(Trim(s)[|Trim(s)| - 1])
  {
    var a := LeadingSpaces(s);
    var t := s[a..];
    var b := TrailingSpaces(t);
    assert forall i :: a + |t| - b <= i < |s| ==> s[i] == t[i - a];
    assert Trim(s) == s[a..a + |t| - b];
  }

  /** A text without white space at either end is its own trim. */
  lemma TrimClean(s: string)
    requires |s| > 0 ==> !IsSpace(s[0]) && !IsSpace(s[|s| - 1])
    ensures Trim(s) == s
  {
    assert LeadingSpaces(s) == 0;
    assert TrailingSpaces(s) == 0;
  }

  /** ASCII `toLowerCase` of one character. */
  function LowerChar(c: char): char
  {
    if 'A' <= c <= 'Z' then (c as int + 32) as char else c
  }

  /** `s.toLowerCase()`, restricted to ASCII letters. */
  function Lower(s: string): (r: string)
    ensures |r| == |s|
    ensures forall i :: 0 <= i < |s| ==> r[i] == LowerChar(s[i])
  {
    seq(|s|, i requires 0 <= i < |s| => LowerChar(s[i]))
  }

  /** Lower-casing twice is lower-casing once. */
  lemma LowerIdempotent(s: string)
    ensures Lower(Lower(s)) == Lower(s)
  {
  }
}
