/**
 * A wallpaper config's workspaces option: its specificity and the list of
 * workspace indices match_add_view reads from it. The list is read the way a
 * std::stringstream reads ints in the classic locale: leading whitespace is
 * skipped, an optional sign, a maximal run of decimal digits, and a value
 * outside the 32-bit int range fails the read. After each number one ',' or
 * whitespace character is dropped; the first failed read ends the list.
 */
module Workspaces {
  import opened Wrappers
  import opened View

  const Wildcard: string := "*"
  const Int32Min: int := -0x8000_0000
  const Int32Max: int := 0x7FFF_FFFF

  /** std::isspace in the classic locale: space, tab, newline, vertical tab, form feed, carriage return. */
  predicate IsSpace(c: char)
  {
    c == ' ' || 9 <= c as int <= 13
  }

  predicate IsDigit(c: char)
  {
    '0' <= c <= '9'
  }

  predicate AllDigits(d: string)
  {
    forall k :: 0 <= k < |d| ==> IsDigit(d[k])
  }

  /** The end of the run of whitespace starting at i. */
  function SpaceRun(t: string, i: nat): (j: nat)
    requires i <= |t|
    ensures i <= j <= |t|
    ensures forall k :: i <= k < j ==> IsSpace(t[k])
    ensures j < |t| ==> !IsSpace(t[j])
    decreases |t| - i
  {
    if i < |t| && IsSpace(t[i]) then SpaceRun(t, i + 1) else i
  }

  /** The end of the run of digits starting at i. */
  function DigitRun(t: string, i: nat): (j: nat)
    requires i <= |t|
    ensures i <= j <= |t|
    ensures AllDigits(t[i..j])
    ensures j < |t| ==> !IsDigit(t[j])
    decreases |t| - i
  {
    if i < |t| && IsDigit(t[i]) then
      var j := DigitRun(t, i + 1);
      assert t[i..j] == [t[i]] + t[i + 1..j];
      j
    else
      i
  }

  /** The value of a string of decimal digits, most significant first. */
  function DigitsValue(d: string): nat
    requires AllDigits(d)
  {
    if |d| == 0 then 0 else DigitsValue(d[..|d| - 1]) * 10 + (d[|d| - 1] as int - '0' as int)
  }

  /**
   * One `ss >> i`: the value read and how many characters it consumed, or
   * None when the read fails (no digits, or a value outside int's range).
   */
  function Extract(t: string): (r: Option<(int, nat)>)
    ensures r.Some? ==> 0 < r.value.1 <= |t| && Int32Min <= r.value.0 <= Int32Max
    ensures r.Some? ==> IsDigit(t[r.value.1 - 1]) && (r.value.1 == |t| || !IsDigit(t[r.value.1]))
    ensures |t| > 0 && !IsSpace(t[0]) && !IsDigit(t[0]) && t[0] != '-' && t[0] != '+' ==> r.None?
  {
    var i := SpaceRun(t, 0);
    var j := if i < |t| && (t[i] == '-' || t[i] == '+') then i + 1 else i;
    var k := DigitRun(t, j);
    if k == j then None else NumberRead(t[j..k], j > i && t[i] == '-', k)
  }

  /** The value of a digit run with its sign, if it fits in an int; the read then ends at end. */
  function NumberRead(digits: string, negative: bool, end: nat): (r: Option<(int, nat)>)
    requires AllDigits(digits)
    ensures r.Some? ==> r.value.1 == end && Int32Min <= r.value.0 <= Int32Max
  {
    var m: int := DigitsValue(digits);
    var v: int := if negative then -m else m;
    if Int32Min <= v <= Int32Max then Some((v, end)) else None
  }

  /** After a number, one ',' or whitespace character is ignored. */
  function SkipSeparator(t: string): (r: string)
    ensures |r| <= |t| && t[|t| - |r|..] == r
    ensures |r| < |t| <==> |t| > 0 && (t[0] == ',' || IsSpace(t[0]))
  {
    if |t| > 0 && (t[0] == ',' || IsSpace(t[0])) then t[1..] else t
  }

  /** The integers match_add_view reads from a workspaces value, up to the first failed read. */
  function IntegersRead(t: string): (r: seq<int>)
    decreases |t|
  {
    match Extract(t)
    case None => []
    case Some((v, n)) => [v] + IntegersRead(SkipSeparator(t[n..]))
  }

  /** Every integer read fits in an int: a read of a value outside that range fails instead. */
  lemma {:induction false} IntegersReadInRange(t: string)
    ensures forall v | v in IntegersRead(t) :: Int32Min <= v <= Int32Max
    decreases |t|
  {
    var e := Extract(t);
    if e.None? {
      ReadStop(t);
    } else {
      var rest := SkipSeparator(t[e.value.1..]);
      IntegersReadInRange(rest);
      ReadStep(t, e.value.0, e.value.1);
      forall x | x in IntegersRead(t)
        ensures Int32Min <= x <= Int32Max
      {
        if x != e.value.0 {
          assert x in IntegersRead(rest);
        }
      }
    }
  }

  /** Whether a config with this workspaces value takes view index idx. */
  predicate Matches(workspaces: string, idx: int)
    ensures Matches(workspaces, idx) && workspaces != Wildcard ==> Int32Min <= idx <= Int32Max
  {
    IntegersReadInRange(workspaces);
    workspaces == Wildcard || idx in IntegersRead(workspaces)
  }

  /** workspace_specificity: 0 for the wildcard, 1 for any list. */
  function Specificity(workspaces: string): (r: nat)
    ensures r <= 1
    ensures r == 0 <==> workspaces == Wildcard
  {
    if workspaces == Wildcard then 0 else 1
  }

  /** The wildcard takes every index. */
  lemma WildcardMatchesAll(idx: int)
    ensures Matches(Wildcard, idx) && Specificity(Wildcard) == 0
  {
  }

  function DigitChar(d: nat): (c: char)
    requires d < 10
    ensures IsDigit(c) && c as int - '0' as int == d
  {
    ('0' as int + d) as char
  }

  /** The decimal numeral of n, without leading zeros. */
  function Decimal(n: nat): (s: string)
    ensures 0 < |s| && AllDigits(s)
  {
    if n < 10 then [DigitChar(n)] else Decimal(n / 10) + [DigitChar(n % 10)]
  }

  lemma {:induction false} DecimalValue(n: nat)
    ensures DigitsValue(Decimal(n)) == n
  {
    if n >= 10 {
      DecimalValue(n / 10);
      var s := Decimal(n);
      assert s[..|s| - 1] == Decimal(n / 10);
    }
  }

  /** How a list entry is written: an optional '-' and the decimal numeral. */
  function Render(v: int): (s: string)
    ensures 0 < |s| && (IsDigit(s[0]) || s[0] == '-')
  {
    if v < 0 then "-" + Decimal(-v) else Decimal(v)
  }

  /** Entries joined by single commas, as a workspaces list is normally written. */
  function Join(xs: seq<int>): string
  {
    if |xs| == 0 then "" else if |xs| == 1 then Render(xs[0]) else Render(xs[0]) + ("," + Join(xs[1..]))
  }

  lemma {:induction false} DigitRunOver(p: string, rest: string, j: nat)
    requires j <= |p| && AllDigits(p[j..])
    requires rest == [] || !IsDigit(rest[0])
    ensures DigitRun(p + rest, j) == |p|
    decreases |p| - j
  {
    var t := p + rest;
    if j < |p| {
      assert t[j] == p[j..][0];
      assert p[j + 1..] == p[j..][1..];
      DigitRunOver(p, rest, j + 1);
    } else {
      assert j == |t| || t[j] == rest[0];
    }
  }

  /** A rendered number followed by a non-digit is read back exactly, consuming just its characters. */
  lemma ExtractRendered(v: int, rest: string)
    requires Int32Min <= v <= Int32Max
    requires rest == [] || !IsDigit(rest[0])
    ensures Extract(Render(v) + rest) == Some((v, |Render(v)|))
  {
    var s := Render(v);
    var t := s + rest;
    assert t[0] == s[0];
    assert SpaceRun(t, 0) == 0;
    var j := if v < 0 then 1 else 0;
    var d := if v < 0 then Decimal(-v) else Decimal(v);
    assert s[j..] == d;
    DigitRunOver(s, rest, j);
    assert t[j..|s|] == d;
    DecimalValue(if v < 0 then -v else v);
    assert NumberRead(d, v < 0, |s|) == Some((v, |s|));
  }

  /** A successful read contributes its value and reading goes on after the separator. */
  lemma ReadStep(t: string, v: int, n: nat)
    requires Extract(t) == Some((v, n))
    ensures IntegersRead(t) == [v] + IntegersRead(SkipSeparator(t[n..]))
  {
  }

  /** A failed read ends the list. */
  lemma ReadStop(t: string)
    requires Extract(t).None?
    ensures IntegersRead(t) == []
  {
  }

  /** A rendered number and then more text: the number is read and reading resumes on the rest. */
  lemma ReadRendered(v: int, rest: string)
    requires Int32Min <= v <= Int32Max
    requires rest == [] || !IsDigit(rest[0])
    ensures IntegersRead(Render(v) + rest) == [v] + IntegersRead(SkipSeparator(rest))
  {
    var s := Render(v);
    ExtractRendered(v, rest);
    ReadStep(s + rest, v, |s|);
    assert (s + rest)[|s|..] == rest;
  }

  /** Writing a list of ints with single commas and reading it back yields the list. */
  /** One entry of a comma-separated list. */
  lemma ReadEntry(x: int, tail: string)
    requires Int32Min <= x <= Int32Max
    ensures IntegersRead(Render(x) + ("," + tail)) == [x] + IntegersRead(tail)
  {
      ReadRendered(x, "," + tail);
      assert SkipSeparator("," + tail) == tail;
  }
  /** The last entry of a list. */
  lemma ReadLast(x: int)
    requires Int32Min <= x <= Int32Max
    ensures IntegersRead(Render(x)) == [x]
  {
    ReadRendered(x, "");
    assert Render(x) + "" == Render(x);
    ReadStop("");
  }

  lemma {:induction false} ListRoundTrip(xs: seq<int>)
    requires forall k :: 0 <= k < |xs| ==> Int32Min <= xs[k] <= Int32Max
    ensures IntegersRead(Join(xs)) == xs
  {
    if |xs| == 1 {
      ReadLast(xs[0]);
    } else if |xs| > 1 {
      ListRoundTrip(xs[1..]);
      ListStep(xs);
    }
  }

  /** The inductive step of ListRoundTrip. */
  lemma ListStep(xs: seq<int>)
    requires |xs| > 1 && Int32Min <= xs[0] <= Int32Max
    requires IntegersRead(Join(xs[1..])) == xs[1..]
    ensures IntegersRead(Join(xs)) == xs
  {
    ReadEntry(xs[0], Join(xs[1..]));
    assert [xs[0]] + xs[1..] == xs;
  }

  /** A read fails on a comma. */
  lemma ReadStopsAtComma(rest: string)
    ensures IntegersRead([','] + rest) == []
  {
    ReadStop([','] + rest);
  }

  /** A rendered number and one separator character: reading resumes right after the separator. */
  lemma ReadThenSeparator(v: int, sep: char, rest: string)
    requires Int32Min <= v <= Int32Max && (sep == ',' || IsSpace(sep))
    ensures IntegersRead(Render(v) + ([sep] + rest)) == [v] + IntegersRead(rest)
  {
    ReadRendered(v, [sep] + rest);
    assert SkipSeparator([sep] + rest) == rest;
  }

  /** Two separators in a row end the list: "1,,2" reads only 1. */
  lemma DoubleCommaStops(v: int, rest: string)
    requires Int32Min <= v <= Int32Max
    ensures IntegersRead(Render(v) + ([','] + ([','] + rest))) == [v]
  {
    ReadThenSeparator(v, ',', [','] + rest);
    ReadStopsAtComma(rest);
  }

  /** Whitespace before a comma ends the list: "1 ,2" reads only 1. */
  lemma SpaceCommaStops(v: int, rest: string)
    requires Int32Min <= v <= Int32Max
    ensures IntegersRead(Render(v) + ([' '] + ([','] + rest))) == [v]
  {
    ReadThenSeparator(v, ' ', [','] + rest);
    ReadStopsAtComma(rest);
  }

  /** Whitespace after a comma is skipped by the next read: "1, 2" reads 1 and 2. */
  lemma CommaSpaceContinues(v: int, w: int)
    requires Int32Min <= v <= Int32Max && Int32Min <= w <= Int32Max
    ensures IntegersRead(Render(v) + ([','] + ([' '] + Render(w)))) == [v, w]
  {
    ReadThenSeparator(v, ',', [' '] + Render(w));
    ReadAfterSpace(w);
  }

  /** A number after one whitespace character is the whole remaining list. */
  lemma ReadAfterSpace(w: int)
    requires Int32Min <= w <= Int32Max
    ensures IntegersRead([' '] + Render(w)) == [w]
  {
    var u := Render(w);
    ExtractAfterSpace(w);
    ReadStep(" " + u, w, |u| + 1);
    assert (" " + u)[|u| + 1..] == "";
    ReadStop("");
  }

  /** A read skips leading whitespace. */
  lemma ExtractAfterSpace(w: int)
    requires Int32Min <= w <= Int32Max
    ensures Extract(" " + Render(w)) == Some((w, |Render(w)| + 1))
  {
    var u := Render(w);
    assert Extract(u) == Some((w, |u|)) by {
      ExtractRendered(w, "");
      assert u + "" == u;
    }
    ExtractPastSpace(u);
  }

  /** One whitespace character before a number shifts the read by one character. */
  lemma ExtractPastSpace(u: string)
    requires |u| > 0 && !IsSpace(u[0])
    ensures Extract(u).Some? ==> Extract(" " + u) == Some((Extract(u).value.0, Extract(u).value.1 + 1))
  {
    var t := " " + u;
    SpaceThenNumber(u);
    var j := if u[0] == '-' || u[0] == '+' then 1 else 0;
    DigitRunShift(" ", u, j);
    var k := DigitRun(u, j);
    assert t[j + 1..k + 1] == u[j..k];
    assert Extract(u) == if k == j then None else NumberRead(u[j..k], j > 0 && u[0] == '-', k);
    assert Extract(t) == if k == j then None else NumberRead(u[j..k], j > 0 && u[0] == '-', k + 1);
  }

  /** The whitespace run of " " + u is its first character alone. */
  lemma SpaceThenNumber(u: string)
    requires |u| > 0 && !IsSpace(u[0])
    ensures SpaceRun(" " + u, 0) == 1 && SpaceRun(u, 0) == 0
  {
    var t := " " + u;
    assert t[1] == u[0];
    assert SpaceRun(t, 1) == 1;
  }

  lemma {:induction false} DigitRunShift(p: string, u: string, j: nat)
    requires j <= |u|
    ensures DigitRun(p + u, |p| + j) == |p| + DigitRun(u, j)
    decreases |u| - j
  {
    var t := p + u;
    if j < |u| {
      assert t[|p| + j] == u[j];
      DigitRunShift(p, u, j + 1);
    }
  }

  /** wallpaper_config: the views it was given; its option values are read when used. */
  class WallpaperConfig {
    /** The config section's name, "wallpaper:" followed by anything. */
    const name: string
    var views: seq<WallpaperView>

    constructor (name: string)
      ensures this.name == name && views == []
    {
      this.name := name;
      views := [];
    }

    method ResetViews()
      modifies this`views
      ensures views == []
    {
      views := [];
    }

    /**
     * match_add_view: whether the view with index idx belongs to this config
     * given the current workspaces value; a match appends the view once. The
     * settings forwarded to the view on a match are not modelled.
     */
    method MatchAddView(idx: int, view: WallpaperView, workspaces: string) returns (matches: bool)
      modifies this`views
      ensures matches <==> Matches(workspaces, idx)
      ensures views == old(views) + (if matches then [view] else [])
    {
      matches := workspaces == Wildcard;
      if !matches {
        var rest := workspaces;
        while true
          invariant !matches
          invariant idx in IntegersRead(workspaces) <==> idx in IntegersRead(rest)
          decreases |rest|
        {
          var e := Extract(rest);
          if e.None? {
            break;
          }
          if e.value.0 == idx {
            matches := true;
            break;
          }
          rest := SkipSeparator(rest[e.value.1..]);
        }
      }
      if matches {
        views := views + [view];
      }
    }
  }
}
