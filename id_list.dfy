/**
 * The id-list parser shared by the three BulkDelete actions:
 * `ids.Split(',', RemoveEmptyEntries)`, `int.TryParse` on each piece,
 * keep the successes, `Distinct()`.
 */
module IdList {
  import opened Wrappers
  import opened Text

  const MinInt32: int := -0x8000_0000
  const MaxInt32: int := 0x7FFF_FFFF

  /** The white space `NumberStyles.Integer` lets through around a number. */
  predicate IsNumberWhite(c: char)
  {
    ('\t' <= c <= '\r') || c == ' '
  }

  function StripNumberWhite(s: string): (r: string)
    ensures |r| <= |s|
    ensures (forall i :: 0 <= i < |s| ==> !IsNumberWhite(s[i])) ==> r == s
  {
    if s != [] && IsNumberWhite(s[0]) then StripNumberWhite(s[1..])
    else if s != [] && IsNumberWhite(s[|s| - 1]) then StripNumberWhite(s[..|s| - 1])
    else s
  }

  /**
   * `int.TryParse(s, out n)`: optional white space, an optional '+' or '-',
   * one or more decimal digits, optional white space, and a value that fits
   * in 32 bits.
   */
  function TryParseInt32(s: string): (r: Option<int>)
    ensures r.Some? ==> MinInt32 <= r.value <= MaxInt32
  {
    var t := StripNumberWhite(s);
    var negative := |t| > 0 && t[0] == '-';
    var digits := if |t| > 0 && (t[0] == '-' || t[0] == '+') then t[1..] else t;
    if digits == [] || !AllDigits(digits) then None
    else
      var magnitude: int := DigitsValue(digits);
      var v := if negative then -magnitude else magnitude;
      if MinInt32 <= v <= MaxInt32 then Some(v) else None
  }

  /** Every 32-bit integer reads back from its own decimal rendering. */
  lemma TryParseIntToString(x: int)
    requires MinInt32 <= x <= MaxInt32
    ensures TryParseInt32(IntToString(x)) == Some(x)
  {
    var s := IntToString(x);
    var n: nat := if x < 0 then -x else x;
    assert AllDigits(DecimalDigits(n));
    assert forall i :: 0 <= i < |s| ==> !IsNumberWhite(s[i]) by {
      forall i | 0 <= i < |s| ensures !IsNumberWhite(s[i]) {
        if x < 0 && i > 0 {
          assert s[i] == DecimalDigits(n)[i - 1];
        }
      }
    }
    DecimalDigitsValue(n);
    if x < 0 {
      assert s[1..] == DecimalDigits(n);
    }
  }

  /** `Split(',', StringSplitOptions.RemoveEmptyEntries)` keeps the non-empty pieces. */
  function RemoveEmptyEntries(parts: seq<string>): (r: seq<string>)
    ensures forall p :: p in r <==> p in parts && p != ""
  {
    if parts == [] then []
    else (if parts[0] == "" then [] else [parts[0]]) + RemoveEmptyEntries(parts[1..])
  }

  /** `.Select(TryParse).Where(HasValue).Select(Value)`: the values of the pieces that parse. */
  function ParsedValues(tokens: seq<string>): (r: seq<int>)
    ensures forall x :: x in r <==> exists t :: t in tokens && TryParseInt32(t) == Some(x)
  {
    if tokens == [] then []
    else
      var rest := ParsedValues(tokens[1..]);
      assert forall t :: t in tokens <==> t == tokens[0] || t in tokens[1..];
      match TryParseInt32(tokens[0])
      case Some(v) => [v] + rest
      case None => rest
  }

  predicate NoDuplicates(xs: seq<int>)
  {
    forall i, j :: 0 <= i < j < |xs| ==> xs[i] != xs[j]
  }

  /** `Distinct()` after the values already in `seen`: first occurrences, in order. */
  function DistinctAfter(xs: seq<int>, seen: set<int>): (r: seq<int>)
    ensures NoDuplicates(r)
    ensures forall x :: x in r <==> x in xs && x !in seen
  {
    if xs == [] then []
    else if xs[0] in seen then DistinctAfter(xs[1..], seen)
    else
      var rest := DistinctAfter(xs[1..], seen + {xs[0]});
      assert xs[0] !in rest;
      [xs[0]] + rest
  }

  function Distinct(xs: seq<int>): (r: seq<int>)
    ensures NoDuplicates(r)
    ensures forall x :: x in r <==> x in xs
  {
    DistinctAfter(xs, {})
  }

  /**
   * The id list of BulkDelete: each value appears once, and a value appears
   * exactly when some non-empty comma-separated piece of `ids` parses to it.
   */
  function ParseIds(ids: string): (r: seq<int>)
    ensures NoDuplicates(r)
    ensures forall x :: x in r <==>
      exists t :: t in Split(ids, ',') && t != "" && TryParseInt32(t) == Some(x)
  {
    Distinct(ParsedValues(RemoveEmptyEntries(Split(ids, ','))))
  }

  /** A blank `ids` never parses to an id. */
  lemma BlankParsesToNothing(ids: string)
    requires AllWhiteSpace(ids)
    ensures ParseIds(ids) == []
  {
    if ParseIds(ids) != [] {
      var x := ParseIds(ids)[0];
      var t :| t in Split(ids, ',') && t != "" && TryParseInt32(t) == Some(x);
      var parts := Split(ids, ',');
      var k :| 0 <= k < |parts| && parts[k] == t;
      PieceOfBlankIsBlank(parts, ',', k);
      BlankDoesNotParse(t);
      assert false;
    }
  }

  lemma {:induction false} PieceOfBlankIsBlank(parts: seq<string>, sep: char, k: int)
    requires |parts| >= 1 && 0 <= k < |parts|
    requires AllWhiteSpace(Join(parts, sep))
    ensures AllWhiteSpace(parts[k])
  {
    var j := Join(parts, sep);
    if |parts| > 1 {
      assert j == parts[0] + ([sep] + Join(parts[1..], sep));
      assert Join(parts[1..], sep) == j[|parts[0]| + 1..];
      if k == 0 {
        assert parts[0] == j[..|parts[0]|];
      } else {
        PieceOfBlankIsBlank(parts[1..], sep, k - 1);
      }
    }
  }

  lemma BlankDoesNotParse(t: string)
    requires AllWhiteSpace(t)
    ensures TryParseInt32(t).None?
  {
    var u := StripNumberWhite(t);
    if u != [] {
      StrippedIsInfix(t);
      var d := if u[0] == '-' || u[0] == '+' then u[1..] else u;
      if d != [] {
        assert d[0] in u;
        var i :| 0 <= i < |t| && t[i] == d[0];
        assert IsWhiteSpace(d[0]) && !IsDigit(d[0]);
      }
    }
  }

  lemma {:induction false} StrippedIsInfix(s: string)
    ensures forall c :: c in StripNumberWhite(s) ==> c in s
  {
    if s != [] && IsNumberWhite(s[0]) {
      StrippedIsInfix(s[1..]);
    } else if s != [] && IsNumberWhite(s[|s| - 1]) {
      StrippedIsInfix(s[..|s| - 1]);
    }
  }

  /** The listed ids as a set: `Where(x => idList.Contains(x.Id))` selects by it. */
  function IdSet(ids: seq<int>): (r: set<int>)
    ensures forall x :: x in r <==> x in ids
  {
    set x | x in ids
  }

  /**
   * The ids a BulkDelete request acts on: none for a null or blank `ids`
   * (the action returns before parsing), otherwise the parsed list.
   */
  function BulkDeleteIds(ids: Option<string>): (r: seq<int>)
    ensures IsNullOrWhiteSpace(ids) ==> r == []
    ensures !IsNullOrWhiteSpace(ids) ==> r == ParseIds(ids.value)
  {
    if IsNullOrWhiteSpace(ids) then [] else ParseIds(ids.value)
  }
}
