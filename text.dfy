/**
 * The two JavaScript string operations the configuration reader relies on:
 * `String.prototype.split` with a one-character separator and
 * `String.prototype.trim`.
 */
module Text {

  /**
   * The code points ECMAScript counts as WhiteSpace (tab, vertical tab, form
   * feed, space, no-break space, byte order mark and the other space
   * separators) or as LineTerminator (line feed, carriage return, line and
   * paragraph separators): exactly what `trim` removes.
   */
  predicate IsSpace(c: char)
  {
    || '\U{0009}' <= c <= '\U{000D}'   // tab, line feed, vertical tab, form feed, carriage return
    || c == '\U{0020}' || c == '\U{00A0}' || c == '\U{1680}'
    || '\U{2000}' <= c <= '\U{200A}'   // en quad to hair space
    || c == '\U{2028}' || c == '\U{2029}' || c == '\U{202F}' || c == '\U{205F}'
    || c == '\U{3000}' || c == '\U{FEFF}'
  }

  predicate AllSpace(s: string)
  {
    forall i :: 0 <= i < |s| ==> IsSpace(s[i])
  }

  predicate StartsWith(s: string, prefix: string)
  {
    |prefix| <= |s| && s[..|prefix|] == prefix
  }

  /** The pieces glued back together with `sep` between neighbours (JavaScript's `pieces.join(sep)`). */
  function Join(pieces: seq<string>, sep: char): string
    decreases |pieces|
  {
    if pieces == [] then []
    else if |pieces| == 1 then pieces[0]
    else pieces[0] + [sep] + Join(pieces[1..], sep)
  }

  /**
   * `s.split(sep)`: the text between consecutive occurrences of `sep`, including
   * the (possibly empty) text before the first and after the last one.
   */
  function Split(s: string, sep: char): (pieces: seq<string>)
    ensures |pieces| >= 1
    ensures forall i :: 0 <= i < |pieces| ==> sep !in pieces[i]
    decreases |s|
  {
    if s == [] then [[]]
    else
      var rest := Split(s[1..], sep);
      if s[0] == sep then [[]] + rest
      else [[s[0]] + rest[0]] + rest[1..]
  }

  /** Joining the pieces with the separator gives back the text. */
  lemma {:induction false} JoinSplit(s: string, sep: char)
    ensures Join(Split(s, sep), sep) == s
    decreases |s|
  {
    if s != [] {
      var rest := Split(s[1..], sep);
      JoinSplit(s[1..], sep);
      if s[0] == sep {
        assert ([[]] + rest)[1..] == rest;
      } else {
        var pieces := [[s[0]] + rest[0]] + rest[1..];
        assert pieces[1..] == rest[1..];
        assert s == [s[0]] + s[1..];
      }
    }
  }

  /** Position of the first occurrence of `c` in `s`. */
  function IndexOf(s: string, c: char): (i: nat)
    requires c in s
    ensures i < |s| && s[i] == c && c !in s[..i]
  {
    if s[0] == c then 0
    else
      assert c in s[1..] by { assert s == [s[0]] + s[1..]; }
      var j := IndexOf(s[1..], c);
      assert s[..j + 1] == [s[0]] + s[1..][..j];
      j + 1
  }

  /** Text without the separator is one piece. */
  lemma {:induction false} SplitNoSeparator(s: string, sep: char)
    requires sep !in s
    ensures Split(s, sep) == [s]
    decreases |s|
  {
    if s != [] {
      SplitNoSeparator(s[1..], sep);
      assert [s[0]] + s[1..] == s;
    }
  }

  /** Splitting at the first separator: the head piece is everything before it. */
  lemma {:induction false} SplitAtFirst(head: string, sep: char, tail: string)
    requires sep !in head
    ensures Split(head + [sep] + tail, sep) == [head] + Split(tail, sep)
    decreases |head|
  {
    var s := head + [sep] + tail;
    if head == [] {
      assert s[1..] == tail;
    } else {
      assert s[1..] == head[1..] + [sep] + tail;
      SplitAtFirst(head[1..], sep, tail);
      assert [head[0]] + head[1..] == head;
    }
  }

  /** The first piece is the text before the first separator; the rest split the text after it. */
  lemma SplitAtIndexOf(s: string, sep: char)
    requires sep in s
    ensures Split(s, sep) == [s[..IndexOf(s, sep)]] + Split(s[IndexOf(s, sep) + 1..], sep)
  {
    var p := IndexOf(s, sep);
    assert s == s[..p] + [sep] + s[p + 1..];
    SplitAtFirst(s[..p], sep, s[p + 1..]);
  }

  lemma {:induction false} JoinSnoc(pieces: seq<string>, last: string, sep: char)
    requires |pieces| >= 1
    ensures Join(pieces + [last], sep) == Join(pieces, sep) + [sep] + last
    decreases |pieces|
  {
    if |pieces| > 1 {
      assert (pieces + [last])[1..] == pieces[1..] + [last];
      JoinSnoc(pieces[1..], last, sep);
    }
  }

  /**
   * `Split` is the inverse of `Join`: any separator-free pieces that join to `s`
   * are exactly the pieces `Split` returns.
   */
  lemma {:induction false} SplitIsUnique(pieces: seq<string>, s: string, sep: char)
    requires |pieces| >= 1
    requires forall i :: 0 <= i < |pieces| ==> sep !in pieces[i]
    requires Join(pieces, sep) == s
    ensures Split(s, sep) == pieces
    decreases |pieces|
  {
    if |pieces| == 1 {
      SplitNoSeparator(s, sep);
    } else {
      SplitIsUnique(pieces[1..], Join(pieces[1..], sep), sep);
      SplitAtFirst(pieces[0], sep, Join(pieces[1..], sep));
      assert [pieces[0]] + pieces[1..] == pieces;
    }
  }

  /** Text that ends with the separator splits into an empty last piece. */
  lemma SplitTrailingSeparator(s: string, sep: char)
    ensures Split(s + [sep], sep) == Split(s, sep) + [[]]
  {
    var pieces := Split(s, sep) + [[]];
    JoinSplit(s, sep);
    JoinSnoc(Split(s, sep), [], sep);
    SplitIsUnique(pieces, s + [sep], sep);
  }

  /** The first piece is empty exactly when the text is empty or starts with the separator. */
  lemma SplitHeadEmpty(s: string, sep: char)
    ensures Split(s, sep)[0] == [] <==> s == [] || s[0] == sep
  {
  }

  /** The length of the run of whitespace at the start of `s`. */
  function LeadingSpace(s: string): (n: nat)
    ensures n <= |s|
    ensures forall k :: 0 <= k < n ==> IsSpace(s[k])
    ensures n == |s| || !IsSpace(s[n])
    decreases |s|
  {
    if s != [] && IsSpace(s[0]) then 1 + LeadingSpace(s[1..]) else 0
  }

  /** The length of the run of whitespace at the end of `s`. */
  function TrailingSpace(s: string): (n: nat)
    ensures n <= |s|
    ensures forall k :: |s| - n <= k < |s| ==> IsSpace(s[k])
    ensures n == |s| || !IsSpace(s[|s| - 1 - n])
    decreases |s|
  {
    if s != [] && IsSpace(s[|s| - 1]) then 1 + TrailingSpace(s[..|s| - 1]) else 0
  }

  /** `trim`: the text left between the leading and the trailing whitespace, which neither starts nor ends with whitespace. */
  function Trim(s: string): (r: string)
    ensures r == [] || (!IsSpace(r[0]) && !IsSpace(r[|r| - 1]))
  {
    var rest := s[LeadingSpace(s)..];
    rest[..|rest| - TrailingSpace(rest)]
  }

  /** The leading run is exactly `n` long when the first `n` characters are whitespace and the next one is not. */
  lemma LeadingSpaceIs(s: string, n: nat)
    requires n <= |s| && (forall k :: 0 <= k < n ==> IsSpace(s[k]))
    requires n == |s| || !IsSpace(s[n])
    ensures LeadingSpace(s) == n
  {
  }

  /** The trailing run is exactly `n` long when the last `n` characters are whitespace and the one before is not. */
  lemma TrailingSpaceIs(s: string, n: nat)
    requires n <= |s| && (forall k :: |s| - n <= k < |s| ==> IsSpace(s[k]))
    requires n == |s| || !IsSpace(s[|s| - 1 - n])
    ensures TrailingSpace(s) == n
  {
  }

  /**
   * What `trim` cuts away on either side is whitespace, and what it keeps is the
   * slice of the text that starts after the leading whitespace.
   */
  lemma TrimIsSlice(s: string)
    ensures var i := LeadingSpace(s);
      && i + |Trim(s)| <= |s| && Trim(s) == s[i..i + |Trim(s)|]
      && AllSpace(s[..i]) && AllSpace(s[i + |Trim(s)|..])
  {
    TrimKeepsSlice(s);
    AllSpacePrefix(s, LeadingSpace(s));
    TrimDropsSpaceSuffix(s);
  }

  lemma TrimKeepsSlice(s: string)
    ensures var i := LeadingSpace(s);
      i + |Trim(s)| <= |s| && Trim(s) == s[i..i + |Trim(s)|]
  {
    var i := LeadingSpace(s);
    var rest := s[i..];
    var m := |rest| - TrailingSpace(rest);
    assert Trim(s) == rest[..m];
    assert rest[..m] == s[i..i + m];
  }

  lemma TrimDropsSpaceSuffix(s: string)
    ensures LeadingSpace(s) + |Trim(s)| <= |s| && AllSpace(s[LeadingSpace(s) + |Trim(s)|..])
  {
    var i := LeadingSpace(s);
    var rest := s[i..];
    var t := TrailingSpace(rest);
    var n := |Trim(s)|;
    assert n == |rest| - t;
    var tail := s[i + n..];
    forall k | 0 <= k < |tail| ensures IsSpace(tail[k]) {
      assert tail[k] == rest[|rest| - t + k];
    }
  }

  lemma AllSpacePrefix(s: string, n: nat)
    requires n <= |s| && forall k :: 0 <= k < n ==> IsSpace(s[k])
    ensures AllSpace(s[..n])
  {
    forall k | 0 <= k < n ensures IsSpace(s[..n][k]) {
      assert s[..n][k] == s[k];
    }
  }

  lemma AllSpaceConcat(a: string, b: string)
    requires AllSpace(a) && AllSpace(b)
    ensures AllSpace(a + b)
  {
    forall k | 0 <= k < |a + b| ensures IsSpace((a + b)[k]) {
      if k < |a| { assert (a + b)[k] == a[k]; } else { assert (a + b)[k] == b[k - |a|]; }
    }
  }

  /** Trimming leaves nothing exactly when the text is all whitespace. */
  lemma TrimEmptyIffAllSpace(s: string)
    ensures Trim(s) == [] <==> AllSpace(s)
  {
    TrimIsSlice(s);
    var i := LeadingSpace(s);
    if Trim(s) == [] {
      AllSpaceConcat(s[..i], s[i..]);
      assert s[..i] + s[i..] == s;
    } else {
      assert !IsSpace(s[i]);
    }
  }

  /** `trim` returns exactly the core of a text padded with whitespace on both sides. */
  lemma TrimOfPadding(lead: string, core: string, trail: string)
    requires AllSpace(lead) && AllSpace(trail)
    requires core == [] || (!IsSpace(core[0]) && !IsSpace(core[|core| - 1]))
    ensures Trim(lead + core + trail) == core
  {
    var s := lead + core + trail;
    if core == [] {
      AllSpaceConcat(lead, trail);
      assert s == lead + trail;
      TrimEmptyIffAllSpace(s);
    } else {
      assert s[|lead|] == core[0];
      LeadingSpaceIs(s, |lead|);
      var rest := s[|lead|..];
      assert rest == core + trail;
      assert rest[|core| - 1] == core[|core| - 1];
      TrailingSpaceIs(rest, |trail|);
      assert rest[..|core|] == core;
    }
  }
}
