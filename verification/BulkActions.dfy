/** The `mode: list` batches of the `bulk_act_notifications` tool: validation, and one patch for each entry. */
module BulkActions {
  import opened Wrappers

  type Id = nat

  datatype Action = MarkRead | Delete | Unsubscribe | SnoozeUntil

  datatype Entry = Entry(id: Id, action: Action, snoozedUntil: Option<int>)

  datatype Status = Read | Deleted | Unsubscribed

  /** The fields of a notification a patch sets; the rest stays as it is. */
  datatype Patch = Patch(status: Option<Status>, snoozedUntil: Option<int>)

  datatype Error = NoEntries | TooMany(given: nat) | Repeated(ids: seq<Id>) | SnoozeWithoutDate

  datatype Result<+T> = Ok(value: T) | Err(error: Error)

  const MAX_LIST_MODE_ENTRIES: nat := 100

  function Ids(entries: seq<Entry>): (s: seq<Id>)
    ensures |s| == |entries| && forall i :: 0 <= i < |s| ==> s[i] == entries[i].id
  {
    seq(|entries|, i requires 0 <= i < |entries| => entries[i].id)
  }

  /** How often `x` occurs in the first `n` places. */
  function Occurrences(s: seq<Id>, n: nat, x: Id): nat
    requires n <= |s|
  {
    if n == 0 then 0 else Occurrences(s, n - 1, x) + if s[n - 1] == x then 1 else 0
  }

  /** The ids at the places, among the first `n`, where an id occurs for the second time. */
  function SecondOccurrences(s: seq<Id>, n: nat): seq<Id>
    requires n <= |s|
  {
    if n == 0 then []
    else if Occurrences(s, n - 1, s[n - 1]) == 1 then SecondOccurrences(s, n - 1) + [s[n - 1]]
    else SecondOccurrences(s, n - 1)
  }

  predicate Distinct(s: seq<Id>) {
    forall i, j :: 0 <= i < j < |s| ==> s[i] != s[j]
  }

  lemma {:induction false} Occurs(s: seq<Id>, n: nat, x: Id)
    requires n <= |s|
    ensures Occurrences(s, n, x) > 0 <==> x in s[..n]
  {
    if n > 0 {
      Occurs(s, n - 1, x);
      assert s[..n] == s[..n - 1] + [s[n - 1]];
    } else {
      assert s[..0] == [];
    }
  }

  /** The repeated ids are exactly those that occur twice or more, each named once. */
  lemma {:induction false} RepeatedOnce(s: seq<Id>, n: nat, x: Id)
    requires n <= |s|
    ensures x in SecondOccurrences(s, n) <==> Occurrences(s, n, x) >= 2
    ensures Distinct(SecondOccurrences(s, n))
  {
    if n > 0 {
      RepeatedOnce(s, n - 1, x);
      RepeatedOnce(s, n - 1, s[n - 1]);
    }
  }

  lemma {:induction false} TwiceMeansPair(s: seq<Id>, n: nat, x: Id)
    requires n <= |s| && Occurrences(s, n, x) >= 2
    ensures exists i, j :: 0 <= i < j < n && s[i] == s[j] == x
  {
    if Occurrences(s, n - 1, x) >= 2 {
      TwiceMeansPair(s, n - 1, x);
    } else {
      Occurs(s, n - 1, x);
      var i :| 0 <= i < n - 1 && s[..n - 1][i] == x;
      assert s[i] == s[n - 1] == x;
    }
  }

  lemma {:induction false} PairMeansTwice(s: seq<Id>, n: nat, i: nat, j: nat)
    requires i < j < n <= |s| && s[i] == s[j]
    ensures Occurrences(s, n, s[j]) >= 2
  {
    if j == n - 1 {
      assert s[..j][i] == s[j];
      Occurs(s, j, s[j]);
    } else {
      PairMeansTwice(s, n - 1, i, j);
    }
  }

  /** For every list: no id is named as repeated exactly when all are distinct. */
  lemma NoRepeatsIff(s: seq<Id>)
    ensures SecondOccurrences(s, |s|) == [] <==> Distinct(s)
  {
    if SecondOccurrences(s, |s|) != [] {
      var x := SecondOccurrences(s, |s|)[0];
      RepeatedOnce(s, |s|, x);
      TwiceMeansPair(s, |s|, x);
    } else {
      forall i, j | 0 <= i < j < |s| ensures s[i] != s[j] {
        if s[i] == s[j] {
          PairMeansTwice(s, |s|, i, j);
          RepeatedOnce(s, |s|, s[j]);
        }
      }
    }
  }

  /** `validate_list_mode_entries`. */
  method ValidateListModeEntries(entries: seq<Entry>) returns (r: Result<()>)
    ensures r.Ok? <==> 1 <= |entries| <= 100 && Distinct(Ids(entries))
    ensures r == Err(NoEntries) <==> entries == []
    ensures |entries| > 100 ==> r == Err(TooMany(|entries|))
    ensures 1 <= |entries| <= 100 && !Distinct(Ids(entries)) ==>
              r == Err(Repeated(SecondOccurrences(Ids(entries), |entries|)))
  {
    if |entries| == 0 { return Err(NoEntries); }
    if |entries| > MAX_LIST_MODE_ENTRIES { return Err(TooMany(|entries|)); }
    ghost var ids := Ids(entries);
    var seen: set<Id> := {};
    var duplicates: seq<Id> := [];
    for k := 0 to |entries|
      invariant forall x :: x in seen <==> Occurrences(ids, k, x) > 0
      invariant duplicates == SecondOccurrences(ids, k)
    {
      var id := entries[k].id;
      RepeatedOnce(ids, k, id);
      if id in seen {
        if id !in duplicates { duplicates := duplicates + [id]; }
      } else {
        seen := seen + {id};
      }
    }
    NoRepeatsIff(ids);
    if duplicates != [] { return Err(Repeated(duplicates)); }
    return Ok(());
  }

  /** `notification_patch_from_action`. */
  function PatchFromAction(action: Action, snoozedUntil: Option<int>): (r: Result<Patch>)
    ensures r.Ok? <==> action != SnoozeUntil || snoozedUntil.Some?
    ensures r.Ok? ==> r.value.status.Some? != r.value.snoozedUntil.Some?
    ensures r.Err? ==> r.error == SnoozeWithoutDate
    ensures r.Ok? ==> (r.value.status == Some(Read) <==> action == MarkRead)
    ensures r.Ok? ==> (r.value.status == Some(Deleted) <==> action == Delete)
    ensures r.Ok? ==> (r.value.status == Some(Unsubscribed) <==> action == Unsubscribe)
    ensures r.Ok? && action == SnoozeUntil ==> r.value.snoozedUntil == snoozedUntil
  {
    match action
    case MarkRead => Ok(Patch(Some(Read), None))
    case Delete => Ok(Patch(Some(Deleted), None))
    case Unsubscribe => Ok(Patch(Some(Unsubscribed), None))
    case SnoozeUntil => if snoozedUntil.Some? then Ok(Patch(None, snoozedUntil)) else Err(SnoozeWithoutDate)
  }

  /** `collect`: the patches of all entries, or the first error. */
  function Patches(entries: seq<Entry>): (r: Result<seq<(Id, Patch)>>)
    ensures r.Ok? <==> forall i :: 0 <= i < |entries| ==> PatchFromAction(entries[i].action, entries[i].snoozedUntil).Ok?
    ensures r.Ok? ==> |r.value| == |entries|
    ensures r.Ok? ==> forall i :: 0 <= i < |entries| ==>
      r.value[i].0 == entries[i].id && Ok(r.value[i].1) == PatchFromAction(entries[i].action, entries[i].snoozedUntil)
  {
    if entries == [] then Ok([])
    else
      var first := PatchFromAction(entries[0].action, entries[0].snoozedUntil);
      if first.Err? then Err(first.error)
      else
        var rest := Patches(entries[1..]);
        if rest.Err? then rest else Ok([(entries[0].id, first.value)] + rest.value)
  }

  predicate NamesADate(e: Entry) {
    e.action == SnoozeUntil ==> e.snoozedUntil.Some?
  }

  /** The list mode of `bulk_act_selection`: all or nothing, in the order given. */
  method Select(entries: seq<Entry>) returns (r: Result<seq<(Id, Patch)>>)
    ensures r.Ok? <==>
            && 1 <= |entries| <= 100 && Distinct(Ids(entries))
            && forall i :: 0 <= i < |entries| ==> NamesADate(entries[i])
    ensures r.Ok? ==> |r.value| == |entries| && forall i :: 0 <= i < |entries| ==>
      r.value[i].0 == entries[i].id && Ok(r.value[i].1) == PatchFromAction(entries[i].action, entries[i].snoozedUntil)
  {
    var valid := ValidateListModeEntries(entries);
    if valid.Err? { return Err(valid.error); }
    r := Patches(entries);
    assert forall i :: 0 <= i < |entries| ==>
        NamesADate(entries[i]) == PatchFromAction(entries[i].action, entries[i].snoozedUntil).Ok?;
  }
}
