/**
 * The Foundation string operations both tools rely on, over strings as
 * sequences of Unicode scalars: `joined(separator:)`, `components(separatedBy:)`,
 * `trimmingCharacters(in:)`, `replacingOccurrences(of:with: "")`, `hasPrefix`
 * and the decimal rendering of integers.
 */
module Strings {

  // ---------------------------------------------------------------------------
  // Character sets of Foundation's CharacterSet
  // ---------------------------------------------------------------------------

  /** `CharacterSet.whitespaces`: general category Zs and the horizontal tab. */
  const Whitespaces: set<char> :=
    {'\t', ' ', '\U{00A0}', '\U{1680}',
     '\U{2000}', '\U{2001}', '\U{2002}', '\U{2003}', '\U{2004}', '\U{2005}',
     '\U{2006}', '\U{2007}', '\U{2008}', '\U{2009}', '\U{200A}',
     '\U{202F}', '\U{205F}', '\U{3000}'}

  /** `CharacterSet.newlines`: U+000A to U+000D, U+0085, U+2028 and U+2029. */
  const Newlines: set<char> :=
    {'\n', '\U{000B}', '\U{000C}', '\r', '\U{0085}', '\U{2028}', '\U{2029}'}

  /** `CharacterSet.whitespacesAndNewlines`. */
  const WhitespacesAndNewlines: set<char> := Whitespaces + Newlines

  // ---------------------------------------------------------------------------
  // Prefixes and occurrences
  // ---------------------------------------------------------------------------

  /** Concatenation regroups freely. */
  lemma AppendAssoc<T>(a: seq<T>, b: seq<T>, c: seq<T>)
    ensures a + b + c == a + (b + c)
  {
  }

  /** `s.hasPrefix(p)`. */
  predicate StartsWith(s: string, p: string) {
    |p| <= |s| && s[..|p|] == p
  }

  /** `pat` occurs in `s` starting at index `i`. */
  predicate OccursAt(s: string, pat: string, i: int) {
    0 <= i && i + |pat| <= |s| && forall j :: 0 <= j < |pat| ==> s[i + j] == pat[j]
  }

  // ---------------------------------------------------------------------------
  // joined(separator:)
  // ---------------------------------------------------------------------------

  /** `parts.joined(separator: sep)`. */
  function Join(parts: seq<string>, sep: string): string
  {
    if |parts| == 0 then ""
    else if |parts| == 1 then parts[0]
    else parts[0] + sep + Join(parts[1..], sep)
  }

  /** Appending a part to a joined sequence appends the separator and the part. */
  lemma {:induction false} JoinSnoc(parts: seq<string>, p: string, sep: string)
    ensures Join(parts + [p], sep) == if parts == [] then p else Join(parts, sep) + sep + p
  {
    if |parts| >= 2 {
      assert (parts + [p])[1..] == parts[1..] + [p];
      JoinSnoc(parts[1..], p, sep);
    } else if |parts| == 1 {
      assert parts + [p] == [parts[0], p];
    }
  }

  /** A character occurs in a joined string exactly when it occurs in a part or in a separator that is used. */
  lemma {:induction false} InJoin(parts: seq<string>, sep: string, c: char)
    ensures c in Join(parts, sep) <==>
      (exists i :: 0 <= i < |parts| && c in parts[i]) || (|parts| >= 2 && c in sep)
  {
    if |parts| >= 2 {
      InJoin(parts[1..], sep, c);
      assert parts[1..][0] == parts[1];
      if c in Join(parts, sep) && !(c in sep) && !(c in parts[0]) {
        var i :| 0 <= i < |parts[1..]| && c in parts[1..][i];
        assert c in parts[i + 1];
      }
      if exists i :: 0 <= i < |parts| && c in parts[i] {
        var i :| 0 <= i < |parts| && c in parts[i];
        if i > 0 {
          assert c in parts[1..][i - 1];
        }
      }
    }
  }

  // ---------------------------------------------------------------------------
  // components(separatedBy: String)
  // ---------------------------------------------------------------------------

  /**
   * `s.components(separatedBy: sep)`: the pieces between the occurrences of
   * `sep` found scanning left to right; a string without `sep` is one piece.
   */
  function Split(s: string, sep: string): (r: seq<string>)
    requires |sep| > 0
    ensures |r| >= 1
    decreases |s|
  {
    if |s| < |sep| then [s]
    else if s[..|sep|] == sep then [""] + Split(s[|sep|..], sep)
    else
      var rest := Split(s[1..], sep);
      [[s[0]] + rest[0]] + rest[1..]
  }

  /** Putting a character in front of the first part puts it in front of the joined string. */
  lemma ConsFirstPart(x: char, parts: seq<string>, sep: string)
    requires |parts| >= 1
    ensures Join([[x] + parts[0]] + parts[1..], sep) == [x] + Join(parts, sep)
  {
    var q := [[x] + parts[0]] + parts[1..];
    if |parts| >= 2 {
      assert q[1..] == parts[1..];
    }
  }

  /** Joining the pieces with the separator gives back the string. */
  lemma {:induction false} JoinSplit(s: string, sep: string)
    requires |sep| > 0
    ensures Join(Split(s, sep), sep) == s
    decreases |s|
  {
    if |s| < |sep| {
    } else if s[..|sep|] == sep {
      var rest := Split(s[|sep|..], sep);
      JoinSplit(s[|sep|..], sep);
      assert ([""] + rest)[1..] == rest;
      calc {
        Join(Split(s, sep), sep);
        Join([""] + rest, sep);
        "" + sep + Join(rest, sep);
        sep + s[|sep|..];
        s;
      }
    } else {
      var rest := Split(s[1..], sep);
      JoinSplit(s[1..], sep);
      ConsFirstPart(s[0], rest, sep);
      assert s == [s[0]] + s[1..];
    }
  }

  /** A string without the separator character is a single piece. */
  lemma {:induction false} SplitNoSeparator(s: string, c: char)
    requires c !in s
    ensures Split(s, [c]) == [s]
    decreases |s|
  {
    if |s| >= 1 {
      assert s[..1] == [s[0]];
      SplitNoSeparator(s[1..], c);
      assert s == [s[0]] + s[1..];
    }
  }

  /** Appending the separator character and a piece without it adds exactly that piece. */
  lemma {:induction false} SplitAppend(a: string, c: char, b: string)
    requires c !in b
    ensures Split(a + [c] + b, [c]) == Split(a, [c]) + [b]
    decreases |a|
  {
    var s := a + [c] + b;
    if |a| == 0 {
      assert s[..1] == [c];
      assert s[1..] == b;
      SplitNoSeparator(b, c);
    } else if a[0] == c {
      assert s[..1] == [c] && a[..1] == [c];
      assert s[1..] == a[1..] + [c] + b;
      SplitAppend(a[1..], c, b);
    } else {
      assert s[..1] != [c] && a[..1] != [c];
      assert s[1..] == a[1..] + [c] + b;
      SplitAppend(a[1..], c, b);
    }
  }

  /** Splitting a joined sequence of parts that do not hold the separator character gives the parts back. */
  lemma {:induction false} SplitJoin(parts: seq<string>, c: char)
    requires |parts| >= 1
    requires forall i :: 0 <= i < |parts| ==> c !in parts[i]
    ensures Split(Join(parts, [c]), [c]) == parts
    decreases |parts|
  {
    if |parts| == 1 {
      SplitNoSeparator(parts[0], c);
    } else {
      var init := parts[..|parts| - 1];
      var last := parts[|parts| - 1];
      assert parts == init + [last];
      JoinSnoc(init, last, [c]);
      SplitJoin(init, c);
      SplitAppend(Join(init, [c]), c, last);
    }
  }

  /** Every character of every piece comes from the split string. */
  lemma {:induction false} SplitWithin(s: string, sep: string)
    requires |sep| > 0
    ensures forall i, c :: 0 <= i < |Split(s, sep)| && c in Split(s, sep)[i] ==> c in s
    decreases |s|
  {
    if |s| >= |sep| {
      if s[..|sep|] == sep {
        SplitWithin(s[|sep|..], sep);
        forall c | c in s[|sep|..] ensures c in s {
          var k :| 0 <= k < |s[|sep|..]| && s[|sep|..][k] == c;
          assert s[|sep| + k] == c;
        }
      } else {
        SplitWithin(s[1..], sep);
        forall c | c in s[1..] ensures c in s {
          var k :| 0 <= k < |s[1..]| && s[1..][k] == c;
          assert s[1 + k] == c;
        }
      }
    }
  }

  /** `pat` occurs nowhere in `s`. */
  ghost predicate Free(s: string, pat: string) {
    forall i :: !OccursAt(s, pat, i)
  }

  /** Followed by `sep`, part `p` meets its first occurrence of `sep` right at its end. */
  predicate Sealed(p: string, sep: string) {
    forall k :: 0 <= k < |p| ==> !OccursAt(p + sep, sep, k)
  }

  /** A string in which the separator does not occur is a single piece. */
  lemma {:induction false} SplitFree(s: string, sep: string)
    requires |sep| > 0 && Free(s, sep)
    ensures Split(s, sep) == [s]
    decreases |s|
  {
    if |s| >= |sep| {
      assert !OccursAt(s, sep, 0);
      assert s[..|sep|] != sep by {
        if s[..|sep|] == sep {
          forall j | 0 <= j < |sep| ensures s[j] == sep[j] {
            assert s[..|sep|][j] == s[j];
          }
        }
      }
      forall i ensures !OccursAt(s[1..], sep, i) {
        assert OccursAt(s[1..], sep, i) ==> OccursAt(s, sep, i + 1);
      }
      SplitFree(s[1..], sep);
      assert s == [s[0]] + s[1..];
    }
  }

  /** A sealed part followed by the separator is split off as the first piece. */
  lemma {:induction false} SplitSealed(p: string, sep: string, rest: string)
    requires |sep| > 0 && Sealed(p, sep)
    ensures Split(p + sep + rest, sep) == [p] + Split(rest, sep)
    decreases |p|
  {
    var s := p + sep + rest;
    if p == [] {
      assert s == sep + rest;
      assert s[..|sep|] == sep && s[|sep|..] == rest;
    } else {
      assert !OccursAt(p + sep, sep, 0);
      assert s[..|sep|] != sep by {
        if s[..|sep|] == sep {
          forall j | 0 <= j < |sep| ensures (p + sep)[j] == sep[j] {
            assert s[..|sep|][j] == s[j] == (p + sep)[j];
          }
        }
      }
      forall k | 0 <= k < |p[1..]| ensures !OccursAt(p[1..] + sep, sep, k) {
        assert p[1..] + sep == (p + sep)[1..];
        assert OccursAt(p[1..] + sep, sep, k) ==> OccursAt(p + sep, sep, k + 1);
      }
      SplitSealed(p[1..], sep, rest);
      assert s[1..] == p[1..] + sep + rest;
      assert p == [p[0]] + p[1..];
    }
  }

  /**
   * Splitting joined parts gives the parts back when every part but the last
   * is sealed and the separator does not occur in the last.
   */
  lemma {:induction false} SplitJoinSealed(parts: seq<string>, sep: string)
    requires |sep| > 0 && |parts| >= 1
    requires forall i :: 0 <= i < |parts| - 1 ==> Sealed(parts[i], sep)
    requires Free(parts[|parts| - 1], sep)
    ensures Split(Join(parts, sep), sep) == parts
    decreases |parts|
  {
    if |parts| == 1 {
      SplitFree(parts[0], sep);
    } else {
      var tail := parts[1..];
      assert forall i :: 0 <= i < |tail| - 1 ==> tail[i] == parts[i + 1];
      SplitJoinSealed(tail, sep);
      assert Sealed(parts[0], sep);
      SplitSealed(parts[0], sep, Join(tail, sep));
      assert parts == [parts[0]] + tail;
    }
  }

  // ---------------------------------------------------------------------------
  // components(separatedBy: CharacterSet)
  // ---------------------------------------------------------------------------

  /** `s.components(separatedBy: cs)`: every character of `cs` ends a piece. */
  function SplitAny(s: string, cs: set<char>): (r: seq<string>)
    ensures |r| >= 1
    ensures forall i, k :: 0 <= i < |r| && 0 <= k < |r[i]| ==> r[i][k] !in cs
  {
    if |s| == 0 then [""]
    else
      var rest := SplitAny(s[1..], cs);
      if s[0] in cs then [""] + rest
      else [[s[0]] + rest[0]] + rest[1..]
  }

  /** A string without a separator character is one piece; otherwise it splits into more. */
  lemma {:induction false} SplitAnySingle(s: string, cs: set<char>)
    ensures |SplitAny(s, cs)| == 1 <==> forall k :: 0 <= k < |s| ==> s[k] !in cs
    ensures |SplitAny(s, cs)| == 1 ==> SplitAny(s, cs) == [s]
  {
    if |s| > 0 {
      SplitAnySingle(s[1..], cs);
      if s[0] !in cs && forall k :: 0 <= k < |s[1..]| ==> s[1..][k] !in cs {
        assert s == [s[0]] + s[1..];
      }
      if exists k :: 0 <= k < |s[1..]| && s[1..][k] in cs {
        var k :| 0 <= k < |s[1..]| && s[1..][k] in cs;
        assert s[k + 1] in cs;
      }
    }
  }

  /** The separator characters of `s`, in order: what `SplitAny` consumes. */
  function Breaks(s: string, cs: set<char>): string
  {
    if |s| == 0 then ""
    else if s[0] in cs then [s[0]] + Breaks(s[1..], cs)
    else Breaks(s[1..], cs)
  }

  /** The pieces with the separators put back between them. */
  function Interleave(pieces: seq<string>, seps: string): string
    requires |pieces| == |seps| + 1
  {
    if seps == [] then pieces[0] else pieces[0] + [seps[0]] + Interleave(pieces[1..], seps[1..])
  }

  /** Putting a character in front of the first piece puts it in front of the whole. */
  lemma InterleaveCons(x: char, pieces: seq<string>, seps: string)
    requires |pieces| == |seps| + 1
    ensures Interleave([[x] + pieces[0]] + pieces[1..], seps) == [x] + Interleave(pieces, seps)
  {
    var q := [[x] + pieces[0]] + pieces[1..];
    assert q[1..] == pieces[1..];
  }

  /** The pieces, with the separators they were cut at put back, are the string: one piece more than separators. */
  lemma {:induction false} JoinSplitAny(s: string, cs: set<char>)
    ensures |SplitAny(s, cs)| == |Breaks(s, cs)| + 1
    ensures Interleave(SplitAny(s, cs), Breaks(s, cs)) == s
  {
    if |s| > 0 {
      var rest := SplitAny(s[1..], cs);
      JoinSplitAny(s[1..], cs);
      if s[0] in cs {
        assert ([""] + rest)[1..] == rest;
        assert s == [s[0]] + s[1..];
      } else {
        InterleaveCons(s[0], rest, Breaks(s[1..], cs));
        assert s == [s[0]] + s[1..];
      }
    }
  }

  // ---------------------------------------------------------------------------
  // Sequences
  // ---------------------------------------------------------------------------

  /** A prefix one element longer is the prefix followed by that element. */
  lemma TakeSnoc<T>(s: seq<T>, i: nat)
    requires i < |s|
    ensures s[..i + 1] == s[..i] + [s[i]]
  {
  }

  /** The positions at which `flags` holds, in increasing order. */
  function Positions(flags: seq<bool>): seq<nat>
  {
    if flags == [] then []
    else
      var n := |flags| - 1;
      Positions(flags[..n]) + (if flags[n] then [n] else [])
  }

  /** `Positions` lists exactly the positions that hold, each once, in increasing order. */
  lemma {:induction false} PositionsExact(flags: seq<bool>)
    ensures forall k, l :: 0 <= k < l < |Positions(flags)| ==> Positions(flags)[k] < Positions(flags)[l]
    ensures forall k :: 0 <= k < |Positions(flags)| ==> Positions(flags)[k] < |flags| && flags[Positions(flags)[k]]
    ensures forall i :: 0 <= i < |flags| && flags[i] ==> i in Positions(flags)
  {
    if flags != [] {
      var n := |flags| - 1;
      var init := flags[..n];
      PositionsExact(init);
      var before := Positions(init);
      var all := Positions(flags);
      forall k | 0 <= k < |before|
        ensures before[k] < n && flags[before[k]]
      {
        assert init[before[k]] == flags[before[k]];
      }
      forall i | 0 <= i < n && flags[i]
        ensures i in before
      {
        assert init[i] == flags[i];
      }
      assert all == before + (if flags[n] then [n] else []);
    }
  }

  // ---------------------------------------------------------------------------
  // trimmingCharacters(in:)
  // ---------------------------------------------------------------------------

  /** Drops the leading characters that belong to `cs`. */
  function TrimLeft(s: string, cs: set<char>): (r: string)
    ensures |r| <= |s| && r == s[|s| - |r|..]
    ensures r == [] || r[0] !in cs
  {
    if |s| > 0 && s[0] in cs then TrimLeft(s[1..], cs) else s
  }

  /** Every dropped leading character belongs to `cs`. */
  lemma {:induction false} TrimLeftDropped(s: string, cs: set<char>)
    ensures forall k :: 0 <= k < |s| - |TrimLeft(s, cs)| ==> s[k] in cs
  {
    if |s| > 0 && s[0] in cs {
      TrimLeftDropped(s[1..], cs);
      assert forall k :: 1 <= k < |s| ==> s[1..][k - 1] == s[k];
    }
  }

  /** Drops the trailing characters that belong to `cs`. */
  function TrimRight(s: string, cs: set<char>): (r: string)
    ensures |r| <= |s| && r == s[..|r|]
    ensures r == [] || r[|r| - 1] !in cs
  {
    if |s| > 0 && s[|s| - 1] in cs then TrimRight(s[..|s| - 1], cs) else s
  }

  /** Every dropped trailing character belongs to `cs`. */
  lemma {:induction false} TrimRightDropped(s: string, cs: set<char>)
    ensures forall k :: |TrimRight(s, cs)| <= k < |s| ==> s[k] in cs
  {
    if |s| > 0 && s[|s| - 1] in cs {
      TrimRightDropped(s[..|s| - 1], cs);
    }
  }

  /** `s.trimmingCharacters(in: cs)`: a piece of `s` whose two ends are outside `cs`. */
  function Trim(s: string, cs: set<char>): (r: string)
    ensures |r| <= |s|
    ensures r == [] || (r[0] !in cs && r[|r| - 1] !in cs)
  {
    TrimRight(TrimLeft(s, cs), cs)
  }

  /** Trimming keeps a piece of the string: every character of the result comes from it. */
  lemma TrimWithin(s: string, cs: set<char>)
    ensures forall c :: c in Trim(s, cs) ==> c in s
  {
    var l := TrimLeft(s, cs);
    var r := TrimRight(l, cs);
    assert Trim(s, cs) == r;
    var d := |s| - |l|;
    assert l == s[d..];
    assert r == l[..|r|];
    assert forall k :: 0 <= k < |r| ==> r[k] == s[d + k];
  }

  /** Trimming leaves nothing exactly when every character of the string is in the set. */
  lemma TrimEmpty(s: string, cs: set<char>)
    ensures Trim(s, cs) == [] <==> forall k :: 0 <= k < |s| ==> s[k] in cs
  {
    var l := TrimLeft(s, cs);
    TrimLeftDropped(s, cs);
    TrimRightDropped(l, cs);
    assert |l| > 0 ==> l[0] == s[|s| - |l|];
    if Trim(s, cs) == [] {
      assert l == [];
    }
  }

  /** A string whose two ends lie outside the set is its own trim. */
  lemma TrimUnchanged(s: string, cs: set<char>)
    requires s == [] || (s[0] !in cs && s[|s| - 1] !in cs)
    ensures Trim(s, cs) == s
  {
  }

  /** Trimming twice is trimming once. */
  lemma TrimIdempotent(s: string, cs: set<char>)
    ensures Trim(Trim(s, cs), cs) == Trim(s, cs)
  {
    var t := Trim(s, cs);
    assert TrimLeft(t, cs) == t;
    assert TrimRight(t, cs) == t;
  }

  // ---------------------------------------------------------------------------
  // replacingOccurrences(of: pat, with: "")
  // ---------------------------------------------------------------------------

  /** `s.replacingOccurrences(of: pat, with: "")`: deletes every occurrence found scanning left to right. */
  function RemoveAll(s: string, pat: string): (r: string)
    requires |pat| > 0
    ensures |r| <= |s|
    decreases |s|
  {
    if |s| < |pat| then s
    else if s[..|pat|] == pat then RemoveAll(s[|pat|..], pat)
    else [s[0]] + RemoveAll(s[1..], pat)
  }

  /** A string in which the pattern does not occur is left as it is. */
  lemma {:induction false} RemoveAllAbsent(s: string, pat: string)
    requires |pat| > 0
    requires forall i :: !OccursAt(s, pat, i)
    ensures RemoveAll(s, pat) == s
    decreases |s|
  {
    if |s| >= |pat| {
      assert !OccursAt(s, pat, 0);
      forall i ensures !OccursAt(s[1..], pat, i) {
        assert OccursAt(s[1..], pat, i) ==> OccursAt(s, pat, i + 1);
      }
      RemoveAllAbsent(s[1..], pat);
    }
  }

  /** Removing a single character removes every copy of it and keeps everything else in order. */
  lemma {:induction false} RemoveAllChar(s: string, c: char)
    ensures RemoveAll(s, [c]) == Without(s, c)
    decreases |s|
  {
    if |s| >= 1 {
      assert s[..1] == [s[0]];
      RemoveAllChar(s[1..], c);
    }
  }

  /** A pattern at the front is removed, and the rest is read on from there. */
  lemma RemoveAllPrefix(pat: string, s: string)
    requires |pat| > 0
    ensures RemoveAll(pat + s, pat) == RemoveAll(s, pat)
  {
    var t := pat + s;
    assert t[..|pat|] == pat && t[|pat|..] == s;
  }

  /** Removing a pattern is splitting at it and joining the pieces with nothing between them. */
  lemma {:induction false} RemoveAllSplit(s: string, pat: string)
    requires |pat| > 0
    ensures RemoveAll(s, pat) == Join(Split(s, pat), "")
    decreases |s|
  {
    if |s| >= |pat| {
      if s[..|pat|] == pat {
        var rest := Split(s[|pat|..], pat);
        RemoveAllSplit(s[|pat|..], pat);
        assert ([""] + rest)[1..] == rest;
      } else {
        RemoveAllSplit(s[1..], pat);
        ConsFirstPart(s[0], Split(s[1..], pat), "");
      }
    }
  }

  /** A pattern holding a character the string lacks does not occur in it. */
  lemma CharFree(s: string, pat: string, c: char)
    requires c in pat && c !in s
    ensures Free(s, pat)
  {
    var m :| 0 <= m < |pat| && pat[m] == c;
    forall i ensures !OccursAt(s, pat, i) {
      if 0 <= i && i + |pat| <= |s| {
        assert s[i + m] in s;
      }
    }
  }

  /** Leaving out a character the string lacks leaves it as it is. */
  lemma {:induction false} WithoutAbsent(s: string, c: char)
    requires c !in s
    ensures Without(s, c) == s
  {
    if |s| > 0 {
      WithoutAbsent(s[1..], c);
      assert s == [s[0]] + s[1..];
    }
  }

  /** Leaving out a character distributes over concatenation. */
  lemma {:induction false} WithoutAppend(a: string, b: string, c: char)
    ensures Without(a + b, c) == Without(a, c) + Without(b, c)
  {
    if |a| == 0 {
      assert a + b == b;
    } else {
      assert (a + b)[0] == a[0] && (a + b)[1..] == a[1..] + b;
      WithoutAppend(a[1..], b, c);
    }
  }

  /** `s` with every `c` left out. */
  function Without(s: string, c: char): (r: string)
    ensures c !in r
    ensures |r| <= |s|
  {
    if |s| == 0 then ""
    else if s[0] == c then Without(s[1..], c)
    else [s[0]] + Without(s[1..], c)
  }

  // ---------------------------------------------------------------------------
  // Decimal rendering: `"\(n)"` and `String(n)` for n >= 0
  // ---------------------------------------------------------------------------

  /** The decimal digit for `d`. */
  function Digit(d: nat): char
    requires d < 10
  {
    "0123456789"[d]
  }

  /** A non-empty run of decimal digits. */
  predicate IsNumeral(s: string) {
    |s| >= 1 && forall k :: 0 <= k < |s| ==> '0' <= s[k] <= '9'
  }

  /** The decimal rendering of `n`: digits only, no leading zero unless `n` is zero. */
  function NatToString(n: nat): (r: string)
    ensures IsNumeral(r)
    ensures r[0] == '0' ==> n == 0
  {
    if n < 10 then [Digit(n)] else NatToString(n / 10) + [Digit(n % 10)]
  }

  /** The value of a run of decimal digits. */
  function ParseNat(s: string): nat
    requires forall k :: 0 <= k < |s| ==> '0' <= s[k] <= '9'
  {
    if |s| == 0 then 0
    else 10 * ParseNat(s[..|s| - 1]) + (s[|s| - 1] as int - '0' as int)
  }

  /** Reading back a decimal rendering gives the number. */
  lemma {:induction false} ParseNatToString(n: nat)
    ensures ParseNat(NatToString(n)) == n
  {
    var r := NatToString(n);
    if n >= 10 {
      ParseNatToString(n / 10);
      assert r[..|r| - 1] == NatToString(n / 10);
    }
  }

  /** Different numbers have different decimal renderings. */
  lemma NatToStringInjective(m: nat, n: nat)
    requires NatToString(m) == NatToString(n)
    ensures m == n
  {
    ParseNatToString(m);
    ParseNatToString(n);
  }
}
