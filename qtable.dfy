/** The Q-table of Code/Learner.py as values: a dictionary from `State` objects to
 *  dictionaries from `Action` objects to Q-values. Neither class defines equality, so keys
 *  are compared by identity; the table is the list of its rows in insertion order, which is
 *  the order Python iterates a dictionary in.
 *
 *  This module gives the dictionary operations the learner uses, and the specification of
 *  each lookup the learner performs: the nearest stored state, the nearest stored action,
 *  and what `get_q_value`, `get_max_q_value` and `get_state_value` return and register. */
module QTable {
  import opened Wrappers
  import opened LearnerKeys

  datatype Entry = Entry(action: Action, value: real)
  datatype Row = Row(state: State, entries: seq<Entry>)

  // ---------------------------------------------------------------------------
  // Dictionary operations.

  /** Position of key `s` among the rows from `i` on. */
  function KeyFrom(table: seq<Row>, s: State, i: nat): (r: Option<nat>)
    ensures r.Some? ==> i <= r.value < |table| && table[r.value].state == s
                        && forall j :: i <= j < r.value ==> table[j].state != s
    ensures r.None? ==> forall j :: i <= j < |table| ==> table[j].state != s
    decreases |table| - i
  {
    if i >= |table| then None
    else if table[i].state == s then Some(i)
    else KeyFrom(table, s, i + 1)
  }

  /** `s in q_table`: the position of the row keyed by the object `s`. */
  function KeyIndex(table: seq<Row>, s: State): (r: Option<nat>)
    ensures r.Some? <==> exists j :: 0 <= j < |table| && table[j].state == s
    ensures r.Some? ==> r.value < |table| && table[r.value].state == s
  {
    KeyFrom(table, s, 0)
  }

  /** `q_table[s] = entries`: an existing key keeps its place, a new key goes last. */
  function PutRow(table: seq<Row>, s: State, entries: seq<Entry>): seq<Row>
  {
    match KeyIndex(table, s)
    case Some(i) => table[i := Row(s, entries)]
    case None => table + [Row(s, entries)]
  }

  /** Position of action `a` among the entries from `i` on. */
  function ActionFrom(entries: seq<Entry>, a: Action, i: nat): (r: Option<nat>)
    ensures r.Some? ==> i <= r.value < |entries| && entries[r.value].action == a
                        && forall j :: i <= j < r.value ==> entries[j].action != a
    ensures r.None? ==> forall j :: i <= j < |entries| ==> entries[j].action != a
    decreases |entries| - i
  {
    if i >= |entries| then None
    else if entries[i].action == a then Some(i)
    else ActionFrom(entries, a, i + 1)
  }

  function ActionIndex(entries: seq<Entry>, a: Action): (r: Option<nat>)
    ensures r.Some? <==> exists j :: 0 <= j < |entries| && entries[j].action == a
    ensures r.Some? ==> r.value < |entries| && entries[r.value].action == a
  {
    ActionFrom(entries, a, 0)
  }

  /** `row[a] = v`. */
  function PutEntry(entries: seq<Entry>, a: Action, v: real): seq<Entry>
  {
    match ActionIndex(entries, a)
    case Some(i) => entries[i := Entry(a, v)]
    case None => entries + [Entry(a, v)]
  }

  /** What a dictionary guarantees: each key once. */
  predicate KeysDistinct(table: seq<Row>)
  {
    forall i, j :: 0 <= i < j < |table| ==> table[i].state != table[j].state
  }

  predicate ActionsDistinct(entries: seq<Entry>)
  {
    forall i, j :: 0 <= i < j < |entries| ==> entries[i].action != entries[j].action
  }

  predicate WellFormed(table: seq<Row>)
  {
    KeysDistinct(table) && forall i :: 0 <= i < |table| ==> ActionsDistinct(table[i].entries)
  }

  /** After `q_table[s] = entries`, `q_table[s]` is `entries`. */
  lemma PutRowLookup(table: seq<Row>, s: State, entries: seq<Entry>)
    ensures KeyIndex(PutRow(table, s, entries), s).Some?
    ensures PutRow(table, s, entries)[KeyIndex(PutRow(table, s, entries), s).value].entries == entries
  {
    var t' := PutRow(table, s, entries);
    match KeyIndex(table, s)
    case Some(i) =>
      assert t'[i].state == s;
    case None =>
      assert t'[|table|].state == s;
  }

  /** `q_table[s] = entries` leaves every other key where it was, with its entries, and only
   *  ever adds `s` at the end. */
  lemma PutRowKeeps(table: seq<Row>, s: State, entries: seq<Entry>)
    ensures var t' := PutRow(table, s, entries);
            |t'| >= |table| && (forall j :: 0 <= j < |table| ==> t'[j].state == table[j].state)
            && (forall j :: 0 <= j < |table| && table[j].state != s ==> t'[j] == table[j])
            && (|t'| > |table| ==> t' == table + [Row(s, entries)] && KeyIndex(table, s).None?)
  {
  }

  lemma PutRowWellFormed(table: seq<Row>, s: State, entries: seq<Entry>)
    requires WellFormed(table) && ActionsDistinct(entries)
    ensures WellFormed(PutRow(table, s, entries))
  {
  }

  lemma PutEntryLookup(entries: seq<Entry>, a: Action, v: real)
    ensures var e' := PutEntry(entries, a, v);
            ActionIndex(e', a).Some? && e'[ActionIndex(e', a).value].value == v
  {
    var e' := PutEntry(entries, a, v);
    match ActionIndex(entries, a)
    case Some(i) =>
      assert e'[i].action == a;
    case None =>
      assert e'[|entries|].action == a;
  }

  lemma PutEntryDistinct(entries: seq<Entry>, a: Action, v: real)
    requires ActionsDistinct(entries)
    ensures ActionsDistinct(PutEntry(entries, a, v))
  {
  }

  /** The rows of `t` keep their keys, in place, in `t'`; `t'` may have more rows. */
  predicate Extends(t: seq<Row>, t': seq<Row>)
  {
    |t| <= |t'| && forall j :: 0 <= j < |t| ==> t'[j].state == t[j].state
  }

  // ---------------------------------------------------------------------------
  // The nearest stored state (`find_nearest_state`, `exist_state`).

  /** Squared `calculate_distance_of_states(query, key)`. */
  function StateGap(q: StateData, key: State): nat
  {
    StateDistanceSq(q, key.data)
  }

  /** The first of the rows `table[..n]` at the smallest distance from `q`: the row the
   *  source's loop keeps, since it replaces its candidate only on a strictly smaller distance. */
  function FirstClosestState(table: seq<Row>, q: StateData, n: nat): (k: nat)
    requires 0 < n <= |table|
    ensures k < n
  {
    if n == 1 then 0
    else
      var k := FirstClosestState(table, q, n - 1);
      if StateGap(q, table[n - 1].state) < StateGap(q, table[k].state) then n - 1 else k
  }

  lemma {:induction false} FirstClosestStateIsFirstMinimum(table: seq<Row>, q: StateData, n: nat)
    requires 0 < n <= |table|
    ensures var k := FirstClosestState(table, q, n);
            (forall j :: 0 <= j < n ==> StateGap(q, table[k].state) <= StateGap(q, table[j].state))
            && (forall j :: 0 <= j < k ==> StateGap(q, table[k].state) < StateGap(q, table[j].state))
  {
    if n > 1 {
      FirstClosestStateIsFirstMinimum(table, q, n - 1);
    }
  }

  /** `find_nearest_state`: the first closest row, if it lies within the threshold of 10
   *  (100 squared); none for an empty table. */
  function NearestState(table: seq<Row>, q: StateData): (r: Option<nat>)
    ensures r.Some? ==> r.value < |table| && StateGap(q, table[r.value].state) as real <= StateThresholdSq
  {
    if |table| == 0 then None
    else
      var k := FirstClosestState(table, q, |table|);
      if StateGap(q, table[k].state) as real <= StateThresholdSq then Some(k) else None
  }

  /** `find_nearest_state` in terms of the distances alone: it finds the first row at the
   *  smallest distance when that distance is at most the threshold, and nothing otherwise. */
  lemma NearestStateMeaning(table: seq<Row>, q: StateData)
    ensures NearestState(table, q).Some? ==>
              var k := NearestState(table, q).value;
              (forall j :: 0 <= j < |table| ==> StateGap(q, table[k].state) <= StateGap(q, table[j].state))
              && (forall j :: 0 <= j < k ==> StateGap(q, table[k].state) < StateGap(q, table[j].state))
    ensures NearestState(table, q).None? <==>
              forall j :: 0 <= j < |table| ==> StateGap(q, table[j].state) as real > StateThresholdSq
  {
    if |table| > 0 {
      FirstClosestStateIsFirstMinimum(table, q, |table|);
    }
  }

  /** `exist_state`: the nearest stored state is at distance exactly 0. */
  predicate ExistsState(table: seq<Row>, q: StateData)
  {
    NearestState(table, q).Some? && StateGap(q, table[NearestState(table, q).value].state) == 0
  }

  /** `exist_state` holds exactly when some stored state is at distance 0 from the query. */
  lemma ExistsStateMeaning(table: seq<Row>, q: StateData)
    ensures ExistsState(table, q) <==> exists j :: 0 <= j < |table| && StateGap(q, table[j].state) == 0
  {
    NearestStateMeaning(table, q);
    if j :| 0 <= j < |table| && StateGap(q, table[j].state) == 0 {
      assert NearestState(table, q).Some?;
    }
  }

  /** A stored key always "exists": it is at distance 0 from itself. */
  lemma StoredKeyExists(table: seq<Row>, s: State)
    requires KeyIndex(table, s).Some?
    ensures ExistsState(table, s.data)
  {
    StateDistanceSelf(s.data);
    ExistsStateMeaning(table, s.data);
    assert StateGap(s.data, table[KeyIndex(table, s).value].state) == 0;
  }

  /** Adding rows never makes a state stop existing. */
  lemma ExistsStateExtends(t: seq<Row>, t': seq<Row>, q: StateData)
    requires Extends(t, t') && ExistsState(t, q)
    ensures ExistsState(t', q)
  {
    ExistsStateMeaning(t, q);
    var j :| 0 <= j < |t| && StateGap(q, t[j].state) == 0;
    assert StateGap(q, t'[j].state) == 0;
    ExistsStateMeaning(t', q);
  }

  /** The key a lookup works on: the nearest stored state if the query exists, else the query
   *  object itself. */
  function Resolved(table: seq<Row>, s: State): State
  {
    if ExistsState(table, s.data) then table[NearestState(table, s.data).value].state else s
  }

  /** `if not exist_state(s): q_table[s] = {}`. */
  function Registered(table: seq<Row>, s: State): seq<Row>
  {
    if ExistsState(table, s.data) then table else PutRow(table, s, [])
  }

  /** After registering, the resolved key is stored; registering only ever appends the query
   *  itself, with no entries. */
  lemma RegisteredHasResolved(table: seq<Row>, s: State)
    ensures KeyIndex(Registered(table, s), Resolved(table, s)).Some?
    ensures Extends(table, Registered(table, s))
    ensures !ExistsState(table, s.data) ==> Registered(table, s) == table + [Row(s, [])]
    ensures ExistsState(Registered(table, s), s.data)
  {
    if ExistsState(table, s.data) {
      var k := NearestState(table, s.data).value;
      assert table[k].state == Resolved(table, s);
    } else {
      if KeyIndex(table, s).Some? {
        StoredKeyExists(table, s);
      }
      PutRowLookup(table, s, []);
      PutRowKeeps(table, s, []);
      StoredKeyExists(Registered(table, s), s);
    }
  }

  /** `q_table[key]` for a stored key; no entries for a key that is not stored (every use
   *  below either proves the key stored or models the `KeyError` separately). */
  function EntriesOf(table: seq<Row>, key: State): seq<Entry>
  {
    match KeyIndex(table, key)
    case Some(i) => table[i].entries
    case None => []
  }

  // ---------------------------------------------------------------------------
  // The nearest stored action (`find_nearest_action`).

  /** Squared `calculate_distance_of_actions(query, entry's action)`. */
  function ActionGap(q: ActionData, e: Entry): real
  {
    ActionDistanceSq(q, e.action.data)
  }

  /** The first of `entries[..n]` at the smallest non-zero distance from `q`: an entry at
   *  distance exactly 0 is never a candidate. */
  function FirstClosestAction(entries: seq<Entry>, q: ActionData, n: nat): (r: Option<nat>)
    requires n <= |entries|
    ensures r.Some? ==> r.value < n && ActionGap(q, entries[r.value]) != 0.0
  {
    if n == 0 then None
    else
      var p := FirstClosestAction(entries, q, n - 1);
      var d := ActionGap(q, entries[n - 1]);
      if d != 0.0 && (p.None? || d < ActionGap(q, entries[p.value])) then Some(n - 1) else p
  }

  lemma {:induction false} FirstClosestActionIsFirstMinimum(entries: seq<Entry>, q: ActionData, n: nat)
    requires n <= |entries|
    ensures FirstClosestAction(entries, q, n).None? <==>
              forall j :: 0 <= j < n ==> ActionGap(q, entries[j]) == 0.0
    ensures FirstClosestAction(entries, q, n).Some? ==>
              var k := FirstClosestAction(entries, q, n).value;
              (forall j :: 0 <= j < n && ActionGap(q, entries[j]) != 0.0 ==>
                 ActionGap(q, entries[k]) <= ActionGap(q, entries[j]))
              && (forall j :: 0 <= j < k && ActionGap(q, entries[j]) != 0.0 ==>
                 ActionGap(q, entries[k]) < ActionGap(q, entries[j]))
  {
    if n > 0 {
      FirstClosestActionIsFirstMinimum(entries, q, n - 1);
    }
  }

  /** `find_nearest_action`: the first closest entry at a non-zero distance, if within the
   *  threshold of 10 (100 squared). */
  function NearestAction(entries: seq<Entry>, q: ActionData): (r: Option<nat>)
    ensures r.Some? ==> r.value < |entries| && ActionGap(q, entries[r.value]) != 0.0
                        && ActionGap(q, entries[r.value]) <= ActionThresholdSq
  {
    match FirstClosestAction(entries, q, |entries|)
    case None => None
    case Some(k) => if ActionGap(q, entries[k]) <= ActionThresholdSq then Some(k) else None
  }

  /** An entry identical in every numeric field to the query is skipped, so a table holding
   *  only such an entry yields no nearest action. */
  lemma NearestActionSkipsExactMatch(a: Action, b: Action, v: real)
    requires a.data.x == b.data.x && a.data.y == b.data.y && a.data.speed == b.data.speed
    requires a.data.angle == b.data.angle && a.data.power == b.data.power
    ensures NearestAction([Entry(b, v)], a.data).None?
  {
    assert ActionGap(a.data, Entry(b, v)) == 0.0;
  }

  // ---------------------------------------------------------------------------
  // What the lookups return.

  /** `get_q_value(s, a, find_nearest_action)`: the value stored for `a` under the resolved
   *  key; for an action not stored, the value of the nearest stored action (or 0) when
   *  `nearest` is set, and 0 otherwise. */
  function QValue(table: seq<Row>, s: State, a: Action, nearest: bool): real
  {
    var t1 := Registered(table, s);
    var es := EntriesOf(t1, Resolved(table, s));
    match ActionIndex(es, a)
    case Some(i) => es[i].value
    case None =>
      if !nearest then 0.0
      else match NearestAction(es, a.data)
        case Some(j) => es[j].value
        case None => 0.0
  }

  /** The table after `get_q_value`: the query registered, and without `nearest` an unseen
   *  action stored under the resolved key with value 0. */
  function AfterQValue(table: seq<Row>, s: State, a: Action, nearest: bool): seq<Row>
  {
    var t1 := Registered(table, s);
    var key := Resolved(table, s);
    var es := EntriesOf(t1, key);
    if ActionIndex(es, a).Some? || nearest then t1 else PutRow(t1, key, PutEntry(es, a, 0.0))
  }

  /** An unseen state is registered with no entries; its Q-value is 0, and without `nearest`
   *  the action is then stored under it with value 0. */
  lemma QValueUnseenState(table: seq<Row>, s: State, a: Action, nearest: bool)
    requires !ExistsState(table, s.data)
    ensures QValue(table, s, a, nearest) == 0.0
    ensures AfterQValue(table, s, a, nearest)
         == table + [Row(s, if nearest then [] else [Entry(a, 0.0)])]
  {
    RegisteredHasResolved(table, s);
    var t1 := table + [Row(s, [])];
    PutRowLookup(table, s, []);
    assert EntriesOf(t1, s) == [];
    if !nearest {
      PutRowLookup(t1, s, [Entry(a, 0.0)]);
      PutRowKeeps(t1, s, [Entry(a, 0.0)]);
      assert KeyIndex(t1, s) == Some(|table|);
      assert PutEntry([], a, 0.0) == [Entry(a, 0.0)];
    }
  }

  /** A stored action under the resolved key gives its stored value and changes nothing. */
  lemma QValueStoredAction(table: seq<Row>, s: State, a: Action, nearest: bool)
    requires ExistsState(table, s.data)
    requires ActionIndex(EntriesOf(table, Resolved(table, s)), a).Some?
    ensures QValue(table, s, a, nearest)
         == EntriesOf(table, Resolved(table, s))[ActionIndex(EntriesOf(table, Resolved(table, s)), a).value].value
    ensures AfterQValue(table, s, a, nearest) == table
  {
  }

  /** With `nearest`, `get_q_value` on a stored key never changes the table. */
  lemma QValueNearestReadOnly(table: seq<Row>, s: State, a: Action)
    requires KeyIndex(table, s).Some?
    ensures AfterQValue(table, s, a, true) == table
  {
    StoredKeyExists(table, s);
  }

  /** Largest value among the entries. */
  function MaxValue(entries: seq<Entry>): (m: real)
    requires |entries| > 0
    ensures forall i :: 0 <= i < |entries| ==> entries[i].value <= m
    ensures exists i :: 0 <= i < |entries| && entries[i].value == m
  {
    if |entries| == 1 then entries[0].value
    else
      var rest := MaxValue(entries[1..]);
      assert forall i :: 1 <= i < |entries| ==> entries[i] == entries[1..][i - 1];
      if entries[0].value >= rest then entries[0].value else rest
  }

  /** `get_max_q_value(s)`: 0 for an unseen state or a state with no entries, else the
   *  largest value under the nearest stored state. (It also registers an unseen state:
   *  the table after it is `Registered(table, s)`.) */
  function MaxQValue(table: seq<Row>, s: State): real
  {
    if !ExistsState(table, s.data) then 0.0
    else
      var es := EntriesOf(table, Resolved(table, s));
      if |es| == 0 then 0.0 else MaxValue(es)
  }

  /** The values of the entries, in order. */
  function Values(entries: seq<Entry>): (vs: seq<real>)
    ensures |vs| == |entries|
    ensures forall i :: 0 <= i < |entries| ==> vs[i] == entries[i].value
  {
    seq(|entries|, i requires 0 <= i < |entries| => entries[i].value)
  }

  /** Sum of the values. */
  function ValueSum(entries: seq<Entry>): real
  {
    if |entries| == 0 then 0.0 else ValueSum(entries[..|entries| - 1]) + entries[|entries| - 1].value
  }

  /** `LearnerA3C.get_state_value(s)`: 0 when the object `s` is not a key (no nearest-state
   *  matching); otherwise the mean of its entries' values. A key with no entries makes the
   *  source divide by zero: `None`. */
  function StateValue(table: seq<Row>, s: State): (r: Option<real>)
    ensures KeyIndex(table, s).None? ==> r == Some(0.0)
    ensures KeyIndex(table, s).Some? ==>
              (r.None? <==> |EntriesOf(table, s)| == 0)
              && (r.Some? ==> r.value * (|EntriesOf(table, s)| as real) == ValueSum(EntriesOf(table, s)))
  {
    match KeyIndex(table, s)
    case None => Some(0.0)
    case Some(i) =>
      var es := table[i].entries;
      if |es| == 0 then None else Some(ValueSum(es) / (|es| as real))
  }

  /** `q_table[key][a] = v` on a stored key. */
  function WriteValue(table: seq<Row>, key: State, a: Action, v: real): (t': seq<Row>)
    requires KeyIndex(table, key).Some?
    ensures KeyIndex(t', key).Some? && ActionIndex(EntriesOf(t', key), a).Some?
    ensures EntriesOf(t', key)[ActionIndex(EntriesOf(t', key), a).value].value == v
  {
    var es := PutEntry(EntriesOf(table, key), a, v);
    PutRowLookup(table, key, es);
    PutEntryLookup(EntriesOf(table, key), a, v);
    PutRow(table, key, es)
  }

  // ---------------------------------------------------------------------------
  // Which key a state resolves to.

  /** Adding rows after the existing ones never changes the key an existing state resolves
   *  to: a later row can at best tie at distance 0, and a tie keeps the earlier row. */
  lemma ResolvedStable(t: seq<Row>, t': seq<Row>, s: State)
    requires Extends(t, t') && ExistsState(t, s.data)
    ensures ExistsState(t', s.data) && Resolved(t', s) == Resolved(t, s)
  {
    var q := s.data;
    ExistsStateExtends(t, t', q);
    var k := NearestState(t, q).value;
    var k' := NearestState(t', q).value;
    NearestStateMeaning(t, q);
    NearestStateMeaning(t', q);
    assert StateGap(q, t'[k].state) == 0;
  }

  /** Registering a state and then resolving it reads the same key as resolving it at once:
   *  an unseen state is registered as itself, after every row at a non-zero distance. */
  lemma ResolvedAfterRegistering(t: seq<Row>, s: State)
    ensures Resolved(Registered(t, s), s) == Resolved(t, s)
  {
    if !ExistsState(t, s.data) {
      RegisteredHasResolved(t, s);
      var t1 := Registered(t, s);
      ExistsStateMeaning(t, s.data);
      NearestStateMeaning(t1, s.data);
      StateDistanceSelf(s.data);
      assert StateGap(s.data, t1[|t|].state) == 0;
      var k := NearestState(t1, s.data).value;
      assert StateGap(s.data, t1[k].state) == 0;
      assert k == |t|;
    }
  }

  /** `get_q_value` leaves every row of the table in place, with its key; only the row of the
   *  key `s` resolves to can change, and at most one row is added. */
  lemma AfterQValueKeeps(t: seq<Row>, s: State, a: Action, nearest: bool)
    ensures var t1 := AfterQValue(t, s, a, nearest);
            Extends(t, t1) && |t1| <= |t| + 1 && ExistsState(t1, s.data)
            && Resolved(t1, s) == Resolved(t, s)
            && forall j :: 0 <= j < |t| && t[j].state != Resolved(t, s) ==> t1[j] == t[j]
  {
    var r := Registered(t, s);
    RegisteredHasResolved(t, s);
    ResolvedAfterRegistering(t, s);
    var key := Resolved(t, s);
    var t1 := AfterQValue(t, s, a, nearest);
    if t1 != r {
      PutRowKeeps(r, key, PutEntry(EntriesOf(r, key), a, 0.0));
      assert |t1| == |r|;
    }
    ResolvedStable(r, t1, s);
  }

  // ---------------------------------------------------------------------------
  // `get_best_q_entry`.

  /** The value `get_q_value(key, a, find_nearest_action=True)` gives a new `Action` object,
   *  which is never stored: the value of the nearest stored action under the key `key`
   *  resolves to, or 0. */
  function FreshValue(table: seq<Row>, key: State, a: ActionData): real
  {
    var es := EntriesOf(table, Resolved(table, key));
    match NearestAction(es, a)
    case Some(j) => es[j].value
    case None => 0.0
  }

  lemma FreshValueIsQValue(table: seq<Row>, key: State, a: Action)
    requires KeyIndex(table, key).Some?
    requires ActionIndex(EntriesOf(table, Resolved(table, key)), a).None?
    ensures QValue(table, key, a, true) == FreshValue(table, key, a.data)
    ensures AfterQValue(table, key, a, true) == table
  {
    StoredKeyExists(table, key);
  }

  /** The value of each candidate's new action. */
  function CandidateValues(table: seq<Row>, key: State, cands: seq<ActionData>): (vs: seq<real>)
    ensures |vs| == |cands|
    ensures forall i :: 0 <= i < |cands| ==> vs[i] == FreshValue(table, key, cands[i])
  {
    seq(|cands|, i requires 0 <= i < |cands| => FreshValue(table, key, cands[i]))
  }

  /** The first of `vs[..n]` with the largest value: the loop that scans them replaces its
   *  choice only on a strictly larger value. */
  function FirstMax(vs: seq<real>, n: nat): (k: nat)
    requires 0 < n <= |vs|
    ensures k < n
  {
    if n == 1 then 0
    else
      var k := FirstMax(vs, n - 1);
      if vs[n - 1] > vs[k] then n - 1 else k
  }

  /** Scanning one more value moves the choice to it exactly when it is strictly larger. */
  lemma FirstMaxStep(vs: seq<real>, n: nat)
    requires 0 < n < |vs|
    ensures FirstMax(vs, n + 1) == if vs[n] > vs[FirstMax(vs, n)] then n else FirstMax(vs, n)
  {
  }

  lemma {:induction false} FirstMaxIsFirstMaximum(vs: seq<real>, n: nat)
    requires 0 < n <= |vs|
    ensures var k := FirstMax(vs, n);
            (forall j :: 0 <= j < n ==> vs[j] <= vs[k]) && (forall j :: 0 <= j < k ==> vs[j] < vs[k])
  {
    if n > 1 {
      FirstMaxIsFirstMaximum(vs, n - 1);
    }
  }

  /** The first half of `get_best_q_entry(s)`: the key it reads (none for a `KeyError`) and
   *  the table after it. An unseen state reads the stored state within the threshold, or
   *  is registered and read itself when there is none; a state that exists is read as the
   *  object given, which raises when that object is not itself a key. */
  function BestEntryStart(t: seq<Row>, s: State): (r: (Option<State>, seq<Row>))
    ensures r.0.Some? ==> KeyIndex(r.1, r.0.value).Some?
  {
    if ExistsState(t, s.data) then
      (if KeyIndex(t, s).Some? then Some(s) else None, t)
    else match NearestState(t, s.data)
      case Some(k) => (Some(t[k].state), t)
      case None =>
        PutRowLookup(t, s, []);
        (Some(s), PutRow(t, s, []))
  }

  /** `get_best_q_entry(s, candidates)`: `None` for a `KeyError`; otherwise no action when
   *  the key read has no entries, else the first candidate whose new action has the largest
   *  value, or, with no candidates, the first stored action with the largest value (`max(row, key=row.get)`). */
  function BestEntry(t: seq<Row>, s: State, cands: seq<ActionData>): Option<Option<ActionData>>
  {
    var start := BestEntryStart(t, s);
    match start.0
    case None => None
    case Some(key) =>
      var es := EntriesOf(start.1, key);
      if |es| == 0 then Some(None)
      else if |cands| > 0 then Some(Some(cands[FirstMax(CandidateValues(start.1, key, cands), |cands|)]))
      else Some(Some(es[FirstMax(Values(es), |es|)].action.data))
  }

  /** On a stored key, `get_best_q_entry` reads that key, changes nothing and cannot raise;
   *  with candidates it returns one of them, of the largest value, the first such. */
  lemma BestEntryOnStoredKey(t: seq<Row>, s: State, cands: seq<ActionData>)
    requires KeyIndex(t, s).Some?
    ensures BestEntryStart(t, s) == (Some(s), t)
    ensures BestEntry(t, s, cands).Some?
    ensures BestEntry(t, s, cands).value.None? <==> |EntriesOf(t, s)| == 0
    ensures |EntriesOf(t, s)| > 0 && |cands| > 0 ==>
              exists i :: 0 <= i < |cands| && BestEntry(t, s, cands).value == Some(cands[i])
                && (forall j :: 0 <= j < |cands| ==> FreshValue(t, s, cands[j]) <= FreshValue(t, s, cands[i]))
                && (forall j :: 0 <= j < i ==> FreshValue(t, s, cands[j]) < FreshValue(t, s, cands[i]))
  {
    StoredKeyExists(t, s);
    if |EntriesOf(t, s)| > 0 && |cands| > 0 {
      var vs := CandidateValues(t, s, cands);
      FirstMaxIsFirstMaximum(vs, |cands|);
      var i := FirstMax(vs, |cands|);
      assert BestEntry(t, s, cands).value == Some(cands[i]);
    }
  }

  /** A state that exists only through a different key at distance 0 makes
   *  `get_best_q_entry` raise: it reads the object it was given. */
  lemma BestEntryKeyError(t: seq<Row>, s: State, cands: seq<ActionData>)
    requires ExistsState(t, s.data) && KeyIndex(t, s).None?
    ensures BestEntry(t, s, cands).None?
  {
  }

  // ---------------------------------------------------------------------------
  // The two update rules.

  /** `Learner.update_q_table`: read Q(s, a), registering `s` and storing an unseen `a` with
   *  value 0; read the best value of `next`, registering it; then store the Q-learning step
   *  under the key `s` resolves to. */
  function QLearningUpdate(t: seq<Row>, s: State, a: Action, reward: int, next: State): seq<Row>
  {
    var t1 := AfterQValue(t, s, a, false);
    var t2 := Registered(t1, next);
    var v := QLearningStep(QValue(t, s, a, false), reward as real, MaxQValue(t1, next));
    var key := Resolved(t2, s);
    PutRow(t2, key, PutEntry(EntriesOf(t2, key), a, v))
  }

  /** The Q-learning update writes the step into the row of the key `s` resolves to, which
   *  is always stored by then (no `KeyError`), leaves every other row as it was, and adds
   *  at most the rows of `s` and `next`. */
  lemma QLearningUpdateEffect(t: seq<Row>, s: State, a: Action, reward: int, next: State)
    ensures var t' := QLearningUpdate(t, s, a, reward, next);
            var key := Resolved(t, s);
            Extends(t, t') && |t'| <= |t| + 2
            && KeyIndex(t', key).Some? && ActionIndex(EntriesOf(t', key), a).Some?
            && EntriesOf(t', key)[ActionIndex(EntriesOf(t', key), a).value].value
               == QLearningStep(QValue(t, s, a, false), reward as real,
                                MaxQValue(AfterQValue(t, s, a, false), next))
            && forall j :: 0 <= j < |t| && t[j].state != key ==> t'[j] == t[j]
  {
    var key := Resolved(t, s);
    var t1 := AfterQValue(t, s, a, false);
    var t2 := Registered(t1, next);
    QLearningReadsKeep(t, s, a, next);
    var v := QLearningStep(QValue(t, s, a, false), reward as real, MaxQValue(t1, next));
    var es := PutEntry(EntriesOf(t2, key), a, v);
    PutRowLookup(t2, key, es);
    PutRowKeeps(t2, key, es);
    PutEntryLookup(EntriesOf(t2, key), a, v);
  }

  /** The two reads of the Q-learning update add at most two rows, change no row but the
   *  one `s` resolves to, and leave that key stored. */
  lemma QLearningReadsKeep(t: seq<Row>, s: State, a: Action, next: State)
    ensures var t2 := Registered(AfterQValue(t, s, a, false), next);
            var key := Resolved(t, s);
            Extends(t, t2) && |t2| <= |t| + 2 && Resolved(t2, s) == key && KeyIndex(t2, key).Some?
            && forall j :: 0 <= j < |t| && t[j].state != key ==> t2[j] == t[j]
  {
    var t1 := AfterQValue(t, s, a, false);
    AfterQValueKeeps(t, s, a, false);
    var t2 := Registered(t1, next);
    RegisteredHasResolved(t1, next);
    ResolvedStable(t1, t2, s);
    if t2 != t1 {
      PutRowKeeps(t1, next, []);
    }
  }

  /** `LearnerA3C.update_q_table`: read Q(s, a) with nearest-action matching (registering an
   *  unseen `s`), read the mean value of the object `next`, then store the step under the
   *  object `s` itself, not the key it resolves to. `None` where the source raises: `next`
   *  stored with no entries (division by zero), or `s` not itself a key (`KeyError`). */
  function MeanValueUpdate(t: seq<Row>, s: State, a: Action, reward: int, next: State): Option<seq<Row>>
  {
    var t1 := AfterQValue(t, s, a, true);
    match StateValue(t1, next)
    case None => None
    case Some(v) =>
      if KeyIndex(t1, s).None? then None
      else Some(WriteValue(t1, s, a, MeanValueStep(QValue(t, s, a, true), reward as real, v)))
  }

  /** A successful mean-value update stores the step under `s`, leaves every other row as it
   *  was and adds at most the row of `s`. */
  lemma MeanValueUpdateEffect(t: seq<Row>, s: State, a: Action, reward: int, next: State)
    requires MeanValueUpdate(t, s, a, reward, next).Some?
    ensures var t' := MeanValueUpdate(t, s, a, reward, next).value;
            var v := StateValue(AfterQValue(t, s, a, true), next).value;
            Extends(t, t') && |t'| <= |t| + 1
            && KeyIndex(t', s).Some? && ActionIndex(EntriesOf(t', s), a).Some?
            && EntriesOf(t', s)[ActionIndex(EntriesOf(t', s), a).value].value
               == MeanValueStep(QValue(t, s, a, true), reward as real, v)
            && forall j :: 0 <= j < |t| && t[j].state != s ==> t'[j] == t[j]
  {
    var t1 := AfterQValue(t, s, a, true);
    RegisteredHasResolved(t, s);
    if t1 != t {
      PutRowKeeps(t, s, []);
    }
    var v := MeanValueStep(QValue(t, s, a, true), reward as real, StateValue(t1, next).value);
    PutRowKeeps(t1, s, PutEntry(EntriesOf(t1, s), a, v));
  }

  /** On a stored key the mean-value update succeeds unless `next` is stored with no entries. */
  lemma MeanValueUpdateOnStoredKey(t: seq<Row>, s: State, a: Action, reward: int, next: State)
    requires KeyIndex(t, s).Some?
    ensures MeanValueUpdate(t, s, a, reward, next).Some? <==> KeyIndex(t, next).None? || |EntriesOf(t, next)| > 0
  {
    StoredKeyExists(t, s);
  }

  /** A state that matches a different key at distance 0 makes the mean-value update raise
   *  `KeyError`: unlike the Q-learning update it does not resolve `s`. */
  lemma MeanValueUpdateKeyError(t: seq<Row>, s: State, a: Action, reward: int, next: State)
    requires ExistsState(t, s.data) && KeyIndex(t, s).None?
    ensures MeanValueUpdate(t, s, a, reward, next).None?
  {
  }
}
