/**
 * Per-day receipt numbering (`obtener_siguiente_numero`, src-tauri/src/main.rs:161-182).
 *
 * The receipts directory is a listing of file names; a directory that cannot be read is
 * `None`. Entries the source skips before looking at their name (read errors, names that
 * are not valid UTF-8) are simply absent from the listing.
 */
module ReceiptNumbering {
  import opened Wrappers
  import opened RustText

  const PdfSuffix: string := ".pdf"

  /**
   * The receipt number a directory entry contributes: its name must start with the date
   * stamp (a plain prefix test) and end in `.pdf`; with every trailing `.pdf` removed, it
   * must have a `-`, and the text after the last `-` must parse as a `u32`.
   */
  function CountedNumber(name: string, stamp: string): (r: Option<nat>)
    ensures r.Some? ==> StartsWith(name, stamp) && EndsWith(name, PdfSuffix)
    ensures r.Some? ==> r.value <= U32Max
  {
    if !StartsWith(name, stamp) || !EndsWith(name, PdfSuffix) then None
    else
      var parts := Split(TrimEndMatches(name, PdfSuffix), '-');
      if |parts| >= 2 then ParseU32(parts[|parts| - 1]) else None
  }

  /** The running maximum the source's loop keeps, over the listing in directory order. */
  function MaxCounted(names: seq<string>, stamp: string): (m: nat)
    ensures m <= U32Max
  {
    if names == [] then 0
    else
      var m := MaxCounted(names[..|names| - 1], stamp);
      match CountedNumber(names[|names| - 1], stamp)
      case Some(n) => if n > m then n else m
      case None => m
  }

  /** `m` bounds every counted number of the listing and is one of them, or 0 when none counts. */
  ghost predicate IsCountedMax(names: seq<string>, stamp: string, m: nat) {
    && (forall s :: s in names && CountedNumber(s, stamp).Some? ==> CountedNumber(s, stamp).value <= m)
    && (m == 0 || exists s :: s in names && CountedNumber(s, stamp) == Some(m))
  }

  /** The running maximum is the largest counted number, and 0 when no name counts. */
  lemma {:induction false} MaxCountedIsMax(names: seq<string>, stamp: string)
    ensures IsCountedMax(names, stamp, MaxCounted(names, stamp))
  {
    if names != [] {
      var init := names[..|names| - 1];
      var last := names[|names| - 1];
      MaxCountedIsMax(init, stamp);
      assert names == init + [last];
      forall s | s in names && CountedNumber(s, stamp).Some?
        ensures CountedNumber(s, stamp).value <= MaxCounted(names, stamp)
      {
        if s != last { assert s in init; }
      }
      var m := MaxCounted(names, stamp);
      if m != 0 && m != MaxCounted(init, stamp) {
        assert CountedNumber(last, stamp) == Some(m);
      } else if m != 0 {
        var w :| w in init && CountedNumber(w, stamp) == Some(m);
        assert w in names;
      }
    }
  }

  /** At most one value is the largest counted number of a listing. */
  lemma CountedMaxUnique(names: seq<string>, stamp: string, m1: nat, m2: nat)
    requires IsCountedMax(names, stamp, m1) && IsCountedMax(names, stamp, m2)
    ensures m1 == m2
  {
    if m1 != 0 {
      var w :| w in names && CountedNumber(w, stamp) == Some(m1);
    }
    if m2 != 0 {
      var w :| w in names && CountedNumber(w, stamp) == Some(m2);
    }
  }

  /**
   * The result depends only on which names count: not on the directory order, not on
   * repeated entries, and not on names that are skipped.
   */
  lemma MaxCountedDependsOnlyOnCounted(a: seq<string>, b: seq<string>, stamp: string)
    requires forall s :: s in a && CountedNumber(s, stamp).Some? ==> s in b
    requires forall s :: s in b && CountedNumber(s, stamp).Some? ==> s in a
    ensures MaxCounted(a, stamp) == MaxCounted(b, stamp)
  {
    MaxCountedIsMax(a, stamp);
    MaxCountedIsMax(b, stamp);
    var ma := MaxCounted(a, stamp);
    if ma != 0 {
      var w :| w in a && CountedNumber(w, stamp) == Some(ma);
      assert w in b;
    }
    assert IsCountedMax(b, stamp, ma);
    CountedMaxUnique(b, stamp, ma, MaxCounted(b, stamp));
  }

  /** A name that is skipped never changes the result, wherever it stands in the listing. */
  lemma SkippedNameIgnored(names: seq<string>, k: nat, x: string, stamp: string)
    requires k <= |names|
    requires CountedNumber(x, stamp) == None
    ensures MaxCounted(names[..k] + [x] + names[k..], stamp) == MaxCounted(names, stamp)
  {
    var withX := names[..k] + [x] + names[k..];
    assert names == names[..k] + names[k..];
    assert multiset(withX) == multiset(names) + multiset{x};
    MaxCountedDependsOnlyOnCounted(withX, names, stamp);
  }

  /**
   * `obtener_siguiente_numero`: one more than the largest number found, scanning the listing
   * entry by entry; an unreadable directory gives 1. The `+ 1` is a `u32` addition, so the
   * caller must not reach it with `u32::MAX` already in use.
   */
  method NextNumber(listing: Option<seq<string>>, stamp: string) returns (n: nat)
    requires listing.Some? ==> MaxCounted(listing.value, stamp) < U32Max
    ensures listing.None? ==> n == 1
    ensures listing.Some? ==> n == MaxCounted(listing.value, stamp) + 1
    ensures 1 <= n <= U32Max
    ensures listing.Some? ==> forall s :: s in listing.value && CountedNumber(s, stamp).Some? ==>
              CountedNumber(s, stamp).value < n
  {
    var maxNum := 0;
    if listing.Some? {
      var names := listing.value;
      for i := 0 to |names|
        invariant maxNum == MaxCounted(names[..i], stamp)
      {
        ScanStep(names, i, stamp);
        var name := names[i];
        if !StartsWith(name, stamp) || !EndsWith(name, PdfSuffix) {
          assert CountedNumber(name, stamp) == None;
          continue;
        }
        var trimmed := TrimEndMatches(name, PdfSuffix);
        var parts := Split(trimmed, '-');
        assert |parts| < 2 ==> CountedNumber(name, stamp) == None;
        if |parts| >= 2 {
          var parsed := ParseU32(parts[|parts| - 1]);
          assert CountedNumber(name, stamp) == parsed;
          if parsed.Some? && parsed.value > maxNum {
            maxNum := parsed.value;
          }
        }
      }
      assert names[..|names|] == names;
      MaxCountedIsMax(names, stamp);
    }
    n := maxNum + 1;
  }

  /** One more entry of the listing raises the running maximum to its counted number, if larger. */
  lemma ScanStep(names: seq<string>, i: nat, stamp: string)
    requires i < |names|
    ensures var m := MaxCounted(names[..i], stamp);
      MaxCounted(names[..i + 1], stamp) ==
        if CountedNumber(names[i], stamp).Some? && CountedNumber(names[i], stamp).value > m
        then CountedNumber(names[i], stamp).value else m
  {
    assert names[..i + 1][..i] == names[..i];
  }

  /** `format!("{}-{}.pdf", date_stamp, numero)` (src-tauri/src/main.rs:479). */
  function FileName(stamp: string, n: nat): string {
    stamp + "-" + Decimal(n) + PdfSuffix
  }

  /** A receipt name is the stamp, a `-`, the decimal number and `.pdf`, in that order. */
  lemma FileNameShape(stamp: string, n: nat)
    ensures var r := FileName(stamp, n);
      && |r| == |stamp| + 1 + |Decimal(n)| + |PdfSuffix|
      && StartsWith(r, stamp) && r[|stamp|] == '-' && EndsWith(r, PdfSuffix)
      && r[|stamp| + 1..|r| - |PdfSuffix|] == Decimal(n)
  {
  }

  /** A receipt the backend names is counted by the allocator with exactly its own number. */
  lemma IssuedNameCounted(stamp: string, n: nat)
    requires n <= U32Max
    ensures CountedNumber(FileName(stamp, n), stamp) == Some(n)
  {
    var d := Decimal(n);
    var stem := stamp + "-" + d;
    var name := FileName(stamp, n);
    assert name == stem + PdfSuffix;
    assert name[..|stamp|] == stamp;
    assert name[|name| - 4..] == PdfSuffix;
    assert stem[..|stem|] == stem;
    assert TrimEndMatches(name, PdfSuffix) == TrimEndMatches(stem, PdfSuffix);
    assert IsDigit(stem[|stem| - 1]);
    assert !EndsWith(stem, PdfSuffix);
    forall i | 0 <= i < |d| ensures d[i] != '-' {
      assert IsDigit(d[i]);
    }
    SplitAround(stamp, '-', d);
    SplitWithout(d, '-');
    assert stem == stamp + ['-'] + d;
    ParseDecimal(n);
  }

  /** The proposed name is not in the directory yet: a receipt never overwrites an older one. */
  lemma NextNameIsFresh(names: seq<string>, stamp: string)
    requires MaxCounted(names, stamp) < U32Max
    ensures FileName(stamp, MaxCounted(names, stamp) + 1) !in names
  {
    var m := MaxCounted(names, stamp);
    IssuedNameCounted(stamp, m + 1);
    AboveMaxNotListed(names, stamp, FileName(stamp, m + 1), m + 1);
  }

  /** A name counting more than the maximum of a listing is not in it. */
  lemma AboveMaxNotListed(names: seq<string>, stamp: string, x: string, n: nat)
    requires CountedNumber(x, stamp) == Some(n) && n > MaxCounted(names, stamp)
    ensures x !in names
  {
    MaxCountedIsMax(names, stamp);
  }

  /** Once the proposed receipt is written, the next proposal is one higher. */
  lemma NumbersAdvance(names: seq<string>, stamp: string)
    requires MaxCounted(names, stamp) < U32Max
    ensures MaxCounted(names + [FileName(stamp, MaxCounted(names, stamp) + 1)], stamp)
            == MaxCounted(names, stamp) + 1
  {
    var name := FileName(stamp, MaxCounted(names, stamp) + 1);
    IssuedNameCounted(stamp, MaxCounted(names, stamp) + 1);
    assert (names + [name])[..|names|] == names;
  }

  /** Receipts of another day with a stamp of the same length never count. */
  lemma OtherDayIgnored(day: string, other: string, n: nat)
    requires |day| == |other| && day != other
    ensures CountedNumber(FileName(day, n), other) == None
  {
    var name := FileName(day, n);
    assert name[..|day|] == day;
  }

  /** A first receipt of the day is number 1, whatever else the directory holds. */
  lemma NothingCountsGivesOne(names: seq<string>, stamp: string)
    requires forall s :: s in names ==> CountedNumber(s, stamp) == None
    ensures MaxCounted(names, stamp) + 1 == 1
  {
    MaxCountedIsMax(names, stamp);
  }

  /** The names of receipts 1 to `k` of a day, in the order they were written. */
  function IssuedNames(day: string, k: nat): (names: seq<string>)
    ensures |names| == k
  {
    if k == 0 then [] else IssuedNames(day, k - 1) + [FileName(day, k)]
  }

  /** Appending the receipt numbered one past the maximum raises the maximum by one. */
  lemma AdvanceFrom(names: seq<string>, day: string, k: nat)
    requires MaxCounted(names, day) == k < U32Max
    ensures MaxCounted(names + [FileName(day, k + 1)], day) == k + 1
  {
    NumbersAdvance(names, day);
  }

  /** Receipts 1 to `k` of a day make the next number `k + 1`. */
  lemma {:induction false} IssuedReceiptsGiveNext(day: string, k: nat)
    requires k <= U32Max
    ensures MaxCounted(IssuedNames(day, k), day) + 1 == k + 1
  {
    if k > 0 {
      IssuedReceiptsGiveNext(day, k - 1);
      AdvanceFrom(IssuedNames(day, k - 1), day, k - 1);
    }
  }

  /** None of those receipts counts for another day with a stamp of the same length. */
  lemma {:induction false} IssuedReceiptsOtherDay(day: string, other: string, k: nat)
    requires |other| == |day| && other != day
    ensures forall s :: s in IssuedNames(day, k) ==> CountedNumber(s, other) == None
  {
    if k > 0 {
      IssuedReceiptsOtherDay(day, other, k - 1);
      OtherDayIgnored(day, other, k);
    }
  }

  /** So they leave the other day at number 1. */
  lemma IssuedReceiptsLeaveOtherDayAtOne(day: string, other: string, k: nat)
    requires |other| == |day| && other != day
    ensures MaxCounted(IssuedNames(day, k), other) + 1 == 1
  {
    IssuedReceiptsOtherDay(day, other, k);
    NothingCountsGivesOne(IssuedNames(day, k), other);
  }

  /** A name whose stem (the name without its trailing `.pdf`s) has no `-` is skipped. */
  lemma NoDashSkipped(name: string, stamp: string)
    requires '-' !in TrimEndMatches(name, PdfSuffix)
    ensures CountedNumber(name, stamp) == None
  {
    SplitWithout(TrimEndMatches(name, PdfSuffix), '-');
  }

  /** A qualifying name counts exactly what its text after the last `-` parses to. */
  lemma CountedIsLastSegment(name: string, stamp: string, before: string, after: string)
    requires StartsWith(name, stamp) && EndsWith(name, PdfSuffix)
    requires TrimEndMatches(name, PdfSuffix) == before + "-" + after && '-' !in after
    ensures CountedNumber(name, stamp) == ParseU32(after)
  {
    SplitAround(before, '-', after);
    SplitWithout(after, '-');
  }

  /** `20240101.pdf` has no `-`: skipped. */
  lemma NameWithoutDashSkipped()
    ensures CountedNumber("20240101.pdf", "20240101") == None
  {
    assert TrimEndMatches("20240101", PdfSuffix) == "20240101";
    assert TrimEndMatches("20240101.pdf", PdfSuffix) == "20240101";
    NoDashSkipped("20240101.pdf", "20240101");
  }

  /** `20240101-abc.pdf` ends in a segment that is not a number: skipped. */
  lemma NonNumericSkipped()
    ensures CountedNumber("20240101-abc.pdf", "20240101") == None
  {
    assert TrimEndMatches("20240101-abc", PdfSuffix) == "20240101-abc";
    assert TrimEndMatches("20240101-abc.pdf", PdfSuffix) == "20240101-abc";
    assert "20240101-abc" == "20240101" + "-" + "abc";
    CountedIsLastSegment("20240101-abc.pdf", "20240101", "20240101", "abc");
    ParseRejects("abc", 0);
  }

  /** `random.txt` does not start with the stamp: skipped. */
  lemma OtherFileSkipped()
    ensures CountedNumber("random.txt", "20240101") == None
  {
  }

  /** `20240101x-3.pdf` passes the plain prefix test and counts as 3. */
  lemma PlainPrefixCounted()
    ensures CountedNumber("20240101x-3.pdf", "20240101") == Some(3)
  {
    assert TrimEndMatches("20240101x-3", PdfSuffix) == "20240101x-3";
    assert TrimEndMatches("20240101x-3.pdf", PdfSuffix) == "20240101x-3";
    assert "20240101x-3" == "20240101x" + "-" + "3";
    CountedIsLastSegment("20240101x-3.pdf", "20240101", "20240101x", "3");
    assert "3" == Decimal(3);
    ParseDecimal(3);
  }

  /** `20240101-5.pdf.pdf` loses both suffixes and counts as 5. */
  lemma RepeatedSuffixCounted()
    ensures CountedNumber("20240101-5.pdf.pdf", "20240101") == Some(5)
  {
    assert TrimEndMatches("20240101-5", PdfSuffix) == "20240101-5";
    assert TrimEndMatches("20240101-5.pdf", PdfSuffix) == "20240101-5";
    var name := "20240101-5.pdf.pdf";
    assert EndsWith(name, PdfSuffix) && name[..|name| - 4] == "20240101-5.pdf";
    assert TrimEndMatches(name, PdfSuffix) == "20240101-5";
    assert "20240101-5" == "20240101" + "-" + "5";
    CountedIsLastSegment("20240101-5.pdf.pdf", "20240101", "20240101", "5");
    assert "5" == Decimal(5);
    ParseDecimal(5);
  }
}
