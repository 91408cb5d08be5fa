/**
 * The three `java.lang.String` operations the line decoder relies on:
 * `trim()`, `startsWith(prefix)` and `split("\\r?\\n")`, stated over
 * Dafny strings (sequences of Unicode scalar values).
 */
module JavaText {
  import opened Wrappers

  /** `trim()` removes every character at or below U+0020 (space and all
      ASCII control characters), not Unicode whitespace in general. */
  predicate IsTrimmable(c: char) {
    c <= ' '
  }

  /** True when `trim()` leaves nothing, i.e. `s.trim().isEmpty()`. */
  predicate IsBlank(s: string) {
    forall k :: 0 <= k < |s| ==> IsTrimmable(s[k])
  }

  /** No trimmable character at either end: `s.trim()` would return `s`. */
  predicate IsTrimmed(s: string) {
    |s| == 0 || (!IsTrimmable(s[0]) && !IsTrimmable(s[|s| - 1]))
  }

  /** `r` sits at offset `i` of `s`, and everything around it is trimmable. */
  ghost predicate SurroundedBySpace(s: string, r: string, i: int) {
    && 0 <= i <= i + |r| <= |s|
    && s[i..i + |r|] == r
    && (forall k :: 0 <= k < i ==> IsTrimmable(s[k]))
    && (forall k :: i + |r| <= k < |s| ==> IsTrimmable(s[k]))
  }

  /** The first loop of `trim()`: the index of the first kept character. */
  function TrimStart(s: string, st: nat := 0): (r: nat)
    requires st <= |s|
    requires forall k :: 0 <= k < st ==> IsTrimmable(s[k])
    ensures st <= r <= |s|
    ensures forall k :: 0 <= k < r ==> IsTrimmable(s[k])
    ensures r < |s| ==> !IsTrimmable(s[r])
    decreases |s| - st
  {
    if st < |s| && IsTrimmable(s[st]) then TrimStart(s, st + 1) else st
  }

  /** The second loop of `trim()`: the end of the kept range, never below `st`. */
  function TrimEnd(s: string, st: nat, len: nat): (r: nat)
    requires st <= len <= |s|
    requires forall k :: len <= k < |s| ==> IsTrimmable(s[k])
    ensures st <= r <= len
    ensures forall k :: r <= k < |s| ==> IsTrimmable(s[k])
    ensures st < r ==> !IsTrimmable(s[r - 1])
    decreases len
  {
    if st < len && IsTrimmable(s[len - 1]) then TrimEnd(s, st, len - 1) else len
  }

  /** `s.trim()`: the longest infix of `s` with no trimmable character at
      either end, obtained by dropping trimmable characters from both ends. */
  function Trim(s: string): (r: string)
    ensures IsTrimmed(r)
    ensures SurroundedBySpace(s, r, TrimStart(s))
    ensures |r| == 0 <==> IsBlank(s)
  {
    var st := TrimStart(s);
    var len := TrimEnd(s, st, |s|);
    s[st..len]
  }

  /** A trimmed string that sits between trimmable characters is exactly the
      trim: `trim()` is the unique such infix. */
  lemma TrimUnique(s: string, r: string, i: int)
    requires IsTrimmed(r)
    requires SurroundedBySpace(s, r, i)
    ensures Trim(s) == r
  {
    if |r| == 0 {
      // Nothing is kept: the whole line is trimmable.
      assert IsBlank(s);
    } else {
      // The ends of `r` are kept characters, which pins down both loops of `trim()`.
      assert s[i] == r[0];
      assert s[i + |r| - 1] == r[|r| - 1];
    }
  }

  /** `trim()` is idempotent, and a trimmed string is its own trim. */
  lemma TrimOfTrimmed(s: string)
    requires IsTrimmed(s)
    ensures Trim(s) == s
  {
    if |s| > 0 {
      TrimUnique(s, s, 0);
    }
  }

  /** `s.startsWith(prefix)`. */
  predicate StartsWith(s: string, prefix: string) {
    |prefix| <= |s| && s[..|prefix|] == prefix
  }

  /** A string whose first character differs from the prefix's does not
      start with it. */
  lemma FirstCharRulesOutPrefix(s: string, prefix: string)
    requires |s| > 0 && |prefix| > 0 && s[0] != prefix[0]
    ensures !StartsWith(s, prefix)
  {
  }

  // ---------------------------------------------------------------------
  // split("\\r?\\n")
  // ---------------------------------------------------------------------

  /** Drops one trailing carriage return: the optional `\r` of `\r?\n`
      belongs to the separator, not to the line before it. */
  function StripCR(line: string): (r: string)
    ensures r == line || (line == r + "\r")
    ensures |line| == 0 || line[|line| - 1] != '\r' ==> r == line
  {
    if |line| > 0 && line[|line| - 1] == '\r' then line[..|line| - 1] else line
  }

  /** The fragments between separators, keeping every empty fragment
      (trailing ones included). `cur` is the fragment read so far. Scanning
      left to right, the leftmost match of `\r?\n` always ends at the first
      `\n`, and starts one earlier exactly when a `\r` precedes it. */
  function SplitFrom(s: string, cur: string): (lines: seq<string>)
    requires '\n' !in cur
    ensures |lines| >= 1
    ensures forall k :: 0 <= k < |lines| ==> '\n' !in lines[k]
    decreases |s|
  {
    if |s| == 0 then [cur]
    else if s[0] == '\n' then [StripCR(cur)] + SplitFrom(s[1..], [])
    else SplitFrom(s[1..], cur + [s[0]])
  }

  /** The text with the carriage return of every `\r\n` removed, so that
      each separator is a single `\n`. */
  function DropCRBeforeLF(s: string): (r: string)
    ensures |r| <= |s|
  {
    if |s| == 0 then []
    else if |s| >= 2 && s[0] == '\r' && s[1] == '\n' then DropCRBeforeLF(s[1..])
    else [s[0]] + DropCRBeforeLF(s[1..])
  }

  /** The lines joined with `\n` between consecutive ones. */
  function JoinLF(lines: seq<string>): string {
    if |lines| == 0 then []
    else if |lines| == 1 then lines[0]
    else lines[0] + "\n" + JoinLF(lines[1..])
  }

  /** Splitting on `\r?\n` and keeping all fragments. */
  function SplitNaive(s: string): (lines: seq<string>)
    ensures |lines| >= 1
  {
    SplitFrom(s, [])
  }

  /** Java's `split` removes trailing empty strings from the result. */
  function DropTrailingEmpty(lines: seq<string>): (r: seq<string>)
    ensures r <= lines
    ensures |r| > 0 ==> r[|r| - 1] != []
    ensures forall k :: |r| <= k < |lines| ==> lines[k] == []
  {
    if |lines| > 0 && lines[|lines| - 1] == [] then DropTrailingEmpty(lines[..|lines| - 1])
    else lines
  }

  /** `s.split("\\r?\\n")`: when the pattern never matches the result is `[s]`
      (so `""` splits to `[""]`); otherwise the fragments with trailing
      empty ones removed. A leading empty fragment is kept, since every
      match has positive width. */
  function SplitLines(s: string): (lines: seq<string>)
    ensures forall k :: 0 <= k < |lines| ==> '\n' !in lines[k]
    // No match: the whole string, a trailing `\r` included.
    ensures '\n' !in s ==> lines == [s]
    // Otherwise the fragments up to the last non-empty one; everything cut
    // off is empty. The fragments are the one-line strings that, joined
    // with `\n`, give the chunk with the `\r` of every `\r\n` removed
    // (unique by `JoinLFInjective`).
    ensures '\n' in s ==> lines <= SplitNaive(s)
    ensures '\n' in s && |lines| > 0 ==> lines[|lines| - 1] != []
    ensures '\n' in s ==> forall k :: |lines| <= k < |SplitNaive(s)| ==> SplitNaive(s)[k] == []
    ensures JoinLF(SplitNaive(s)) == DropCRBeforeLF(s)
  {
    SplitNaiveJoin(s);
    if '\n' in s then DropTrailingEmpty(SplitNaive(s)) else [s]
  }

  /** Without a `\n`, the scan only accumulates characters. */
  lemma {:induction false} SplitFromNoNewline(s: string, cur: string)
    requires '\n' !in s && '\n' !in cur
    ensures SplitFrom(s, cur) == [cur + s]
    decreases |s|
  {
    if |s| == 0 {
      assert cur + s == cur;
    } else {
      assert s[0] != '\n';
      SplitFromNoNewline(s[1..], cur + [s[0]]);
      assert cur + [s[0]] + s[1..] == cur + s;
    }
  }

  /** Splitting a chunk that is `a`, a `\n`, then `b` yields the fragments of
      `a` followed by those of `b`, provided the `\n` does not complete a
      `\r\n` that would swallow a carriage return ending `a`. */
  lemma {:induction false} SplitFromAppend(a: string, b: string, cur: string)
    requires '\n' !in cur
    requires if |a| == 0 then (|cur| == 0 || cur[|cur| - 1] != '\r') else a[|a| - 1] != '\r'
    ensures SplitFrom(a + "\n" + b, cur) == SplitFrom(a, cur) + SplitFrom(b, [])
    decreases |a|
  {
    if |a| == 0 {
      assert a + "\n" + b == "\n" + b;
      assert ("\n" + b)[1..] == b;
    } else {
      assert (a + "\n" + b)[0] == a[0];
      assert (a + "\n" + b)[1..] == a[1..] + "\n" + b;
      if a[0] == '\n' {
        SplitFromAppend(a[1..], b, []);
      } else {
        SplitFromAppend(a[1..], b, cur + [a[0]]);
      }
    }
  }

  /** The naive split of `a + "\n" + b` is the split of `a` then that of `b`. */
  lemma SplitNaiveAppend(a: string, b: string)
    requires |a| == 0 || a[|a| - 1] != '\r'
    ensures SplitNaive(a + "\n" + b) == SplitNaive(a) + SplitNaive(b)
  {
    SplitFromAppend(a, b, []);
  }

  /** A chunk without `\n` is a single fragment. */
  lemma SplitNaiveSingle(s: string)
    requires '\n' !in s
    ensures SplitNaive(s) == [s]
  {
    SplitFromNoNewline(s, []);
    assert [] + s == s;
  }

  /** Splitting a chunk that is `a`, a `\r\n`, then `b` yields the fragments
      of `a` followed by those of `b`, whatever `a` ends with: the `\r` is
      part of the separator. */
  lemma {:induction false} SplitFromAppendCRLF(a: string, b: string, cur: string)
    requires '\n' !in cur
    ensures SplitFrom(a + "\r\n" + b, cur) == SplitFrom(a, cur) + SplitFrom(b, [])
    decreases |a|
  {
    if |a| == 0 {
      var s := a + "\r\n" + b;
      assert s == "\r\n" + b;
      assert s[0] == '\r' && s[1..] == "\n" + b;
      assert ("\n" + b)[1..] == b;
      assert StripCR(cur + "\r") == cur by {
        assert (cur + "\r")[..|cur|] == cur;
      }
    } else {
      assert (a + "\r\n" + b)[0] == a[0];
      assert (a + "\r\n" + b)[1..] == a[1..] + "\r\n" + b;
      if a[0] == '\n' {
        SplitFromAppendCRLF(a[1..], b, []);
      } else {
        SplitFromAppendCRLF(a[1..], b, cur + [a[0]]);
      }
    }
  }

  /** The naive split of `a + "\r\n" + b` is the split of `a` then that of `b`. */
  lemma SplitNaiveAppendCRLF(a: string, b: string)
    ensures SplitNaive(a + "\r\n" + b) == SplitNaive(a) + SplitNaive(b)
  {
    SplitFromAppendCRLF(a, b, []);
  }

  /** Text without `\n` has no `\r\n` to shorten. */
  lemma {:induction false} DropCRNoLF(s: string)
    requires '\n' !in s
    ensures DropCRBeforeLF(s) == s
    decreases |s|
  {
    if |s| > 0 {
      assert '\n' !in s[1..];
      DropCRNoLF(s[1..]);
    }
  }

  /** At the first `\n`, a carriage return just before it is dropped. */
  lemma {:induction false} DropCRAtLF(cur: string, rest: string)
    requires '\n' !in cur
    ensures DropCRBeforeLF(cur + "\n" + rest) == StripCR(cur) + "\n" + DropCRBeforeLF(rest)
    decreases |cur|
  {
    var s := cur + "\n" + rest;
    if |cur| == 0 {
      assert s == "\n" + rest && s[1..] == rest;
    } else if cur == "\r" {
      assert s == "\r\n" + rest && s[1..] == "\n" + rest && ("\n" + rest)[1..] == rest;
    } else {
      assert '\n' !in cur[1..];
      DropCRAtLF(cur[1..], rest);
      DropCRAtLFStep(cur, rest);
    }
  }

  /** The step of `DropCRAtLF`: a first character that does not start the
      `\r\n` is kept. */
  lemma DropCRAtLFStep(cur: string, rest: string)
    requires '\n' !in cur && |cur| > 0 && cur != "\r"
    requires DropCRBeforeLF(cur[1..] + "\n" + rest) == StripCR(cur[1..]) + "\n" + DropCRBeforeLF(rest)
    ensures DropCRBeforeLF(cur + "\n" + rest) == StripCR(cur) + "\n" + DropCRBeforeLF(rest)
  {
    var c, tail, d := cur[0], cur[1..], DropCRBeforeLF(rest);
    var more := tail + "\n" + rest;
    assert cur + "\n" + rest == [c] + more;
    assert !(c == '\r' && more[0] == '\n') by {
      if |tail| == 0 {
        assert cur == [c];
      } else {
        assert more[0] == tail[0];
      }
    }
    DropCRKeepsFirst(c, more);
    StripCRCons(cur);
    ConsConcat(c, StripCR(tail), "\n", d);
  }

  /** Text that does not start with `\r\n` keeps its first character. */
  lemma DropCRKeepsFirst(c: char, more: string)
    requires !(c == '\r' && |more| > 0 && more[0] == '\n')
    ensures DropCRBeforeLF([c] + more) == [c] + DropCRBeforeLF(more)
  {
    var s := [c] + more;
    assert s[0] == c && s[1..] == more;
  }

  lemma ConsConcat(c: char, x: string, y: string, z: string)
    ensures [c] + x + y + z == [c] + (x + y + z)
  {
  }

  /** Dropping a final carriage return leaves the first character alone,
      unless it is that carriage return. */
  lemma StripCRCons(cur: string)
    requires |cur| > 0 && cur != "\r"
    ensures StripCR(cur) == [cur[0]] + StripCR(cur[1..])
  {
    if |cur| >= 2 {
      assert cur[..|cur| - 1] == [cur[0]] + cur[1..][..|cur| - 2];
    }
  }

  /** Dropping a final carriage return only touches the last part of a
      concatenation, when that part is not empty. */
  lemma StripCRAppend(p: string, r: string)
    requires |r| > 0 || |p| == 0 || p[|p| - 1] != '\r'
    ensures StripCR(p + r) == p + StripCR(r)
  {
    if |r| > 0 {
      assert (p + r)[|p + r| - 1] == r[|r| - 1];
      assert (p + r)[..|p + r| - 1] == p + r[..|r| - 1];
    } else {
      assert p + r == p;
    }
  }

  /** Joining the fragments read from `cur` then `s` gives back the text with
      every `\r\n` shortened to `\n`. */
  lemma {:induction false} SplitFromJoin(s: string, cur: string)
    requires '\n' !in cur
    ensures JoinLF(SplitFrom(s, cur)) == DropCRBeforeLF(cur + s)
    decreases |s|
  {
    if |s| == 0 {
      assert cur + s == cur;
      DropCRNoLF(cur);
    } else if s[0] == '\n' {
      var rest := SplitFrom(s[1..], []);
      assert JoinLF(rest) == DropCRBeforeLF(s[1..]) by {
        SplitFromJoin(s[1..], []);
        assert [] + s[1..] == s[1..];
      }
      var all := [StripCR(cur)] + rest;
      assert JoinLF(all) == StripCR(cur) + "\n" + JoinLF(rest) by {
        assert all[0] == StripCR(cur) && all[1..] == rest;
      }
      assert DropCRBeforeLF(cur + s) == StripCR(cur) + "\n" + DropCRBeforeLF(s[1..]) by {
        assert cur + s == cur + "\n" + s[1..];
        DropCRAtLF(cur, s[1..]);
      }
    } else {
      SplitFromJoin(s[1..], cur + [s[0]]);
      assert cur + [s[0]] + s[1..] == cur + s;
    }
  }

  /** What `split("\\r?\\n")` cuts a chunk into: fragments without `\n`
      that, joined with `\n`, are the chunk with the `\r` of every `\r\n`
      removed. By `JoinLFInjective` this pins the fragments down. */
  lemma SplitNaiveJoin(s: string)
    ensures forall k :: 0 <= k < |SplitNaive(s)| ==> '\n' !in SplitNaive(s)[k]
    ensures JoinLF(SplitNaive(s)) == DropCRBeforeLF(s)
  {
    SplitFromJoin(s, []);
    assert [] + s == s;
  }

  /** Joining one-line strings with `\n` loses nothing: the lines can be read
      back from the joined text. */
  lemma {:induction false} JoinLFInjective(a: seq<string>, b: seq<string>)
    requires |a| >= 1 && |b| >= 1
    requires forall k :: 0 <= k < |a| ==> '\n' !in a[k]
    requires forall k :: 0 <= k < |b| ==> '\n' !in b[k]
    requires JoinLF(a) == JoinLF(b)
    ensures a == b
    decreases |a|
  {
    if |a| == 1 || |b| == 1 {
      JoinLFShape(a);
      JoinLFShape(b);
    } else {
      FirstLineOfJoin(a[0], JoinLF(a[1..]), b[0], JoinLF(b[1..]));
      JoinLFInjective(a[1..], b[1..]);
      assert a == [a[0]] + a[1..] && b == [b[0]] + b[1..];
    }
  }

  /** Joined one-line strings contain a `\n` exactly when there are two or
      more of them. */
  lemma JoinLFShape(a: seq<string>)
    requires |a| >= 1
    requires forall k :: 0 <= k < |a| ==> '\n' !in a[k]
    ensures '\n' in JoinLF(a) <==> |a| >= 2
    ensures |a| == 1 ==> JoinLF(a) == a[0]
  {
    if |a| >= 2 {
      var j := JoinLF(a);
      assert j[|a[0]|] == '\n';
    }
  }

  /** The position of the first `\n`, or the length when there is none. */
  function FirstLF(s: string): (i: nat)
    ensures i <= |s|
    ensures forall k :: 0 <= k < i ==> s[k] != '\n'
    ensures i < |s| ==> s[i] == '\n'
  {
    if |s| == 0 || s[0] == '\n' then 0 else 1 + FirstLF(s[1..])
  }

  /** The text before the first `\n` is the first line. */
  lemma FirstLineOfJoin(x: string, xs: string, y: string, ys: string)
    requires '\n' !in x && '\n' !in y
    requires x + "\n" + xs == y + "\n" + ys
    ensures x == y && xs == ys
  {
    var j := x + "\n" + xs;
    assert FirstLF(j) == |x| by {
      assert forall k :: 0 <= k < |x| ==> j[k] == x[k];
      assert j[|x|] == '\n';
    }
    assert FirstLF(j) == |y| by {
      assert forall k :: 0 <= k < |y| ==> j[k] == y[k];
      assert j[|y|] == '\n';
    }
    assert x == j[..|x|] == y;
    assert xs == j[|x| + 1..] == ys;
  }

  /** A trimmable character at the end of a string does not change its trim. */
  lemma TrimIgnoresTrailing(s: string, c: char)
    requires IsTrimmable(c)
    ensures Trim(s + [c]) == Trim(s)
  {
    var r := Trim(s);
    if |r| == 0 {
      assert IsBlank(s + [c]);
    } else {
      var i := TrimStart(s);
      assert (s + [c])[i..i + |r|] == s[i..i + |r|];
      TrimUnique(s + [c], r, i);
    }
  }
}
