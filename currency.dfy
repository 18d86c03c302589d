/**
 * `formatCurrency` from `site.js`: the decimal digits of an amount with a
 * '.' inserted by `replace(/\B(?=(\d{3})+(?!\d))/g, ".")`. Amounts are
 * naturals here.
 */
module Currency {
  import opened Text

  /**
   * The regular expression matches the empty string at position `p` of the
   * digit string `d` when `p` is not a word boundary (0 < p < |d|) and
   * a positive multiple of three digits follows, up to the end.
   */
  predicate SeparatorBefore(d: string, p: int)
  {
    0 < p < |d| && (|d| - p) % 3 == 0
  }

  /** The replacement's output for the digits `d[p..]`, scanned left to right. */
  function Separated(d: string, p: nat): string
    requires p <= |d|
    decreases |d| - p
  {
    if p == |d| then []
    else (if SeparatorBefore(d, p) then "." else "") + [d[p]] + Separated(d, p + 1)
  }

  /** `formatCurrency(n)`: the scan's output is the amount's digits grouped by threes from the right. */
  function FormatCurrency(n: nat): (r: string)
    ensures r == GroupFromRight(DecimalDigits(n))
  {
    SeparatedIsGroupFromRight(DecimalDigits(n));
    Separated(DecimalDigits(n), 0)
  }

  /** An independent grouping: three digits at a time, taken from the right. */
  function GroupFromRight(d: string): (r: string)
    decreases |d|
  {
    if |d| <= 3 then d else GroupFromRight(d[..|d| - 3]) + "." + d[|d| - 3..]
  }

  /** A first group of one to three digits, then groups of exactly three, each after a '.'. */
  predicate WellGrouped(s: string)
    decreases |s|
  {
    if |s| <= 3 then 1 <= |s| && AllDigits(s)
    else |s| > 4 && s[|s| - 4] == '.' && AllDigits(s[|s| - 3..]) && WellGrouped(s[..|s| - 4])
  }

  function RemoveDots(s: string): (r: string)
    ensures '.' !in r
  {
    if s == [] then []
    else (if s[0] == '.' then "" else [s[0]]) + RemoveDots(s[1..])
  }

  lemma {:induction false} RemoveDotsAppend(a: string, b: string)
    ensures RemoveDots(a + b) == RemoveDots(a) + RemoveDots(b)
  {
    if a == [] {
      assert a + b == b;
    } else {
      assert (a + b)[0] == a[0];
      assert (a + b)[1..] == a[1..] + b;
      RemoveDotsAppend(a[1..], b);
    }
  }

  lemma {:induction false} RemoveDotsOfDigits(d: string)
    requires AllDigits(d)
    ensures RemoveDots(d) == d
  {
    if d != [] {
      RemoveDotsOfDigits(d[1..]);
    }
  }

  /** Within the last two digits no separator is inserted. */
  lemma {:induction false} SeparatedTail(d: string, p: nat)
    requires p <= |d| && |d| - p < 3
    ensures Separated(d, p) == d[p..]
    decreases |d| - p
  {
    if p < |d| {
      SeparatedTail(d, p + 1);
      assert d[p..] == [d[p]] + d[p + 1..];
    }
  }

  /** Up to the last three digits, the scan of `d` is the scan of its head followed by ".ddd". */
  lemma {:induction false} SeparatedSplit(d: string, p: nat)
    requires |d| > 3 && p <= |d| - 3
    ensures Separated(d, p) == Separated(d[..|d| - 3], p) + "." + d[|d| - 3..]
    decreases |d| - p
  {
    var m := |d| - 3;
    if p == m {
      SeparatedTail(d, m + 1);
      assert d[m..] == [d[m]] + d[m + 1..];
    } else {
      var head := d[..m];
      var mark: string := if SeparatorBefore(d, p) then "." else "";
      assert SeparatorBefore(d, p) <==> SeparatorBefore(head, p);
      assert Separated(d, p) == mark + [d[p]] + Separated(d, p + 1);
      assert Separated(head, p) == mark + [d[p]] + Separated(head, p + 1);
      SeparatedSplit(d, p + 1);
    }
  }

  /** The left-to-right regular expression scan and the grouping from the right agree. */
  lemma {:induction false} SeparatedIsGroupFromRight(d: string)
    ensures Separated(d, 0) == GroupFromRight(d)
    decreases |d|
  {
    if d == [] {
    } else if |d| <= 3 {
      SeparatedTail(d, 1);
      assert d == [d[0]] + d[1..];
    } else {
      var head := d[..|d| - 3];
      SeparatedSplit(d, 0);
      SeparatedIsGroupFromRight(head);
      assert GroupFromRight(d) == GroupFromRight(head) + "." + d[|d| - 3..];
    }
  }

  lemma {:induction false} GroupFromRightWellGrouped(d: string)
    requires 1 <= |d| && AllDigits(d)
    ensures WellGrouped(GroupFromRight(d))
    decreases |d|
  {
    if |d| > 3 {
      var head := d[..|d| - 3];
      GroupFromRightWellGrouped(head);
      var g := GroupFromRight(head);
      var s := g + "." + d[|d| - 3..];
      assert GroupFromRight(d) == s;
      assert s[..|s| - 4] == g;
      assert s[|s| - 4] == '.';
      assert s[|s| - 3..] == d[|d| - 3..];
    }
  }

  lemma {:induction false} GroupFromRightRemoveDots(d: string)
    requires AllDigits(d)
    ensures RemoveDots(GroupFromRight(d)) == d
    decreases |d|
  {
    if |d| <= 3 {
      RemoveDotsOfDigits(d);
    } else {
      var head := d[..|d| - 3];
      var tail := d[|d| - 3..];
      GroupFromRightRemoveDots(head);
      var g := GroupFromRight(head);
      assert GroupFromRight(d) == (g + ".") + tail;
      RemoveDotsAppend(g + ".", tail);
      RemoveDotsAppend(g, ".");
      assert RemoveDots(".") == [] by {
        assert "."[1..] == [];
      }
      RemoveDotsOfDigits(tail);
      assert RemoveDots(g + ".") == head;
      assert head + tail == d;
    }
  }

  /** Deleting the separators gives back the decimal digits of the amount. */
  lemma FormatCurrencyRemoveDots(n: nat)
    ensures RemoveDots(FormatCurrency(n)) == DecimalDigits(n)
  {
    GroupFromRightRemoveDots(DecimalDigits(n));
  }

  /** The formatted amount is one to three digits, then '.'-separated groups of three. */
  lemma FormatCurrencyWellGrouped(n: nat)
    ensures WellGrouped(FormatCurrency(n))
  {
    GroupFromRightWellGrouped(DecimalDigits(n));
  }

  function Pow10(k: nat): (p: nat)
    ensures p >= 1
  {
    if k == 0 then 1 else 10 * Pow10(k - 1)
  }

  /** An amount has at most `k` digits exactly when it is below 10^k. */
  lemma {:induction false} DecimalDigitsLength(n: nat, k: nat)
    requires k >= 1
    ensures |DecimalDigits(n)| <= k <==> n < Pow10(k)
  {
    if n >= 10 {
      assert |DecimalDigits(n)| == |DecimalDigits(n / 10)| + 1;
      if k > 1 {
        DecimalDigitsLength(n / 10, k - 1);
        assert n / 10 < Pow10(k - 1) <==> n < 10 * Pow10(k - 1);
      }
    } else {
      assert Pow10(k) == 10 * Pow10(k - 1);
    }
  }

  /** Only amounts below 1000 come out unchanged. */
  lemma FormatCurrencySmall(n: nat)
    ensures FormatCurrency(n) == DecimalDigits(n) <==> n < 1000
  {
    var d := DecimalDigits(n);
    DecimalDigitsLength(n, 3);
    assert Pow10(3) == 1000;
    if |d| > 3 {
      var g := GroupFromRight(d[..|d| - 3]);
      assert GroupFromRight(d) == g + "." + d[|d| - 3..];
      assert !IsDigit(GroupFromRight(d)[|g|]);
    }
  }
}
