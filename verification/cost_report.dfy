/** The decision logic of the cost-report notebook `Code/Example_2.py`: the
    reporting month (one calendar month before the clock reading, as
    `relativedelta(months=1)` computes it) and the merge of extra recipients into
    the list read from the lookup table. */
module CostReport {
  import opened Wrappers
  import opened Calendar

  /** Months counted from January of year 0; consecutive months differ by one. */
  function MonthIndex(year: int, month: int): int {
    12 * year + month - 1
  }

  /** `now - relativedelta(months=1)`: the same day one month earlier, clipped to the
      last day of that month. From January of year 1 the result would fall in year 0,
      which Python's dates reject (`ValueError`). */
  function PreviousMonth(now: Date): (r: Option<Date>)
    requires ValidDate(now)
    ensures r.None? <==> now.year == 1 && now.month == 1
    ensures r.Some? ==> ValidDate(r.value)
    ensures r.Some? ==> MonthIndex(r.value.year, r.value.month) + 1 == MonthIndex(now.year, now.month)
    ensures r.Some? ==> r.value.day <= now.day
    ensures r.Some? ==> r.value.day == now.day || r.value.day == DaysInMonth(r.value.year, r.value.month)
  {
    var year := if now.month == 1 then now.year - 1 else now.year;
    var month := if now.month == 1 then 12 else now.month - 1;
    if year < 1 then None
    else
      var last := DaysInMonth(year, month);
      Some(Date(year, month, if now.day <= last then now.day else last))
  }

  /** The month arithmetic of `PreviousMonth` spelled out: February to December step
      back within the year, January wraps to December of the year before. */
  lemma PreviousMonthWraps(now: Date)
    requires ValidDate(now) && !(now.year == 1 && now.month == 1)
    ensures now.month >= 2 ==>
      PreviousMonth(now).value.year == now.year && PreviousMonth(now).value.month == now.month - 1
    ensures now.month == 1 ==>
      PreviousMonth(now).value.year == now.year - 1 && PreviousMonth(now).value.month == 12
  {
    var p := PreviousMonth(now).value;
    assert 1 <= p.month <= 12;
    assert MonthIndex(p.year, p.month) + 1 == MonthIndex(now.year, now.month);
  }

  // ---------------------------------------------------------------------------
  // Recipient merge

  predicate NoDuplicates<T(==)>(s: seq<T>) {
    forall i, j :: 0 <= i < j < |s| ==> s[i] != s[j]
  }

  /** Position of the first occurrence of `x` in `s`. */
  function IndexOf<T(==)>(s: seq<T>, x: T): (r: nat)
    requires x in s
    ensures r < |s| && s[r] == x
    ensures forall j :: 0 <= j < r ==> s[j] != x
  {
    if s[0] == x then 0 else 1 + IndexOf(s[1..], x)
  }

  /** Strictly increasing first-occurrence positions in `newItems` leave no room for
      a repeated item. */
  lemma OrderedByFirstOccurrenceIsDistinct(s: seq<string>, newItems: seq<string>)
    requires forall i :: 0 <= i < |s| ==> s[i] in newItems
    requires forall i, j :: 0 <= i < j < |s| ==> IndexOf(newItems, s[i]) < IndexOf(newItems, s[j])
    ensures NoDuplicates(s)
  {
  }

  /** Two lists without duplicates and with no item in common concatenate to a list
      without duplicates. */
  lemma DisjointConcatIsDistinct(a: seq<string>, b: seq<string>)
    requires NoDuplicates(a) && NoDuplicates(b)
    requires forall i :: 0 <= i < |b| ==> b[i] !in a
    ensures NoDuplicates(a + b)
  {
    forall i, j | 0 <= i < j < |a + b|
      ensures (a + b)[i] != (a + b)[j]
    {
      if i >= |a| {
        assert (a + b)[i] == b[i - |a|] && (a + b)[j] == b[j - |a|];
      } else if j >= |a| {
        assert (a + b)[j] == b[j - |a|];
      }
    }
  }

  /** The properties of the merged list, given what the loop establishes about the
      items it appended. */
  lemma AppendedItemsMerge(emailList: seq<string>, added: seq<string>, newItems: seq<string>)
    requires forall x :: x in emailList + added <==> x in emailList || x in newItems
    requires forall i :: 0 <= i < |added| ==> added[i] !in emailList && added[i] in newItems
    requires forall i, j :: 0 <= i < j < |added| ==> IndexOf(newItems, added[i]) < IndexOf(newItems, added[j])
    ensures var merged := emailList + added;
      && merged[..|emailList|] == emailList
      && merged[|emailList|..] == added
      && (forall i :: |emailList| <= i < |merged| ==> merged[i] !in emailList && merged[i] in newItems)
      && NoDuplicates(added)
      && (NoDuplicates(emailList) ==> NoDuplicates(merged))
      && (forall i, j :: |emailList| <= i < j < |merged| ==>
            IndexOf(newItems, merged[i]) < IndexOf(newItems, merged[j]))
  {
    var merged := emailList + added;
    assert merged[..|emailList|] == emailList && merged[|emailList|..] == added;
    OrderedByFirstOccurrenceIsDistinct(added, newItems);
    if NoDuplicates(emailList) {
      DisjointConcatIsDistinct(emailList, added);
    }
    forall i | |emailList| <= i < |merged|
      ensures merged[i] == added[i - |emailList|]
    {
    }
  }

  /** What the merge loop knows after the first `k` new items: the items present are
      the original ones and those `k` items; each appended item is new to the original
      list and comes from the first `k`; appended items follow their first occurrence;
      nothing is appended while every new item is already present. */
  ghost predicate MergeInvariant(emailList: seq<string>, added: seq<string>, newItems: seq<string>, k: nat)
    requires k <= |newItems|
  {
    && (forall x :: x in emailList + added <==> x in emailList || x in newItems[..k])
    && (forall i :: 0 <= i < |added| ==>
          added[i] !in emailList && added[i] in newItems && IndexOf(newItems, added[i]) < k)
    && (forall i, j :: 0 <= i < j < |added| ==>
          IndexOf(newItems, added[i]) < IndexOf(newItems, added[j]))
    && ((forall x :: x in newItems ==> x in emailList) ==> added == [])
  }

  /** One loop step keeps the invariant: the k-th item is appended exactly when it is
      not yet present. */
  lemma MergeStep(emailList: seq<string>, added: seq<string>, newItems: seq<string>, k: nat)
    requires k < |newItems| && MergeInvariant(emailList, added, newItems, k)
    ensures var item := newItems[k];
      MergeInvariant(emailList, if item in emailList + added then added else added + [item], newItems, k + 1)
  {
    var item := newItems[k];
    assert newItems[..k + 1] == newItems[..k] + [item];
    if item !in emailList + added {
      assert item !in newItems[..k];
      assert IndexOf(newItems, item) == k;
      var added' := added + [item];
      assert forall i :: 0 <= i < |added| ==> added'[i] == added[i];
    }
  }

  /** The loop `for item in new_items: if item not in email_list: email_list.append(item)`.
      The original list is kept as a prefix; every new item ends up in the result; the
      appended items are exactly the new items not already present, each once, in the
      order of their first occurrence in `new_items`. */
  method MergeRecipients(emailList: seq<string>, newItems: seq<string>) returns (merged: seq<string>)
    ensures |emailList| <= |merged| && merged[..|emailList|] == emailList
    ensures forall x :: x in merged <==> x in emailList || x in newItems
    ensures forall i :: |emailList| <= i < |merged| ==> merged[i] !in emailList && merged[i] in newItems
    ensures NoDuplicates(merged[|emailList|..])
    ensures NoDuplicates(emailList) ==> NoDuplicates(merged)
    ensures forall i, j :: |emailList| <= i < j < |merged| ==>
      IndexOf(newItems, merged[i]) < IndexOf(newItems, merged[j])
    ensures (forall x :: x in newItems ==> x in emailList) ==> merged == emailList
  {
    var added: seq<string> := [];
    var k := 0;
    while k < |newItems|
      invariant 0 <= k <= |newItems|
      invariant MergeInvariant(emailList, added, newItems, k)
    {
      var item := newItems[k];
      MergeStep(emailList, added, newItems, k);
      if item !in emailList + added {
        added := added + [item];
      }
      k := k + 1;
    }
    assert newItems[..k] == newItems;
    AppendedItemsMerge(emailList, added, newItems);
    merged := emailList + added;
  }
}
