/** Saving and loading the Q-table (`convert_q_table` and `load_q_table` of Code/Learner.py).
 *  Saving turns the table into a dictionary from state texts to dictionaries from action
 *  texts to values; loading reads such a dictionary, item by item in file order, back into
 *  a table of new `State` and `Action` objects. The JSON file itself is outside the model:
 *  the saved form is the nested map, and the loaded form is the list of its items. */
module QTableText {
  import opened Wrappers
  import opened LearnerKeys
  import opened PyText
  import opened KeyText
  import opened QTable

  // ---------------------------------------------------------------------------
  // Saving.

  /** The items a dictionary receives when they are assigned in order. */
  function ToMap<V>(items: seq<(string, V)>): map<string, V>
  {
    if |items| == 0 then map[]
    else ToMap(items[..|items| - 1])[items[|items| - 1].0 := items[|items| - 1].1]
  }

  /** Assigning items in order keeps every key once, with the value of its last item. */
  lemma {:induction false} ToMapLookup<V>(items: seq<(string, V)>, i: nat)
    requires i < |items|
    requires forall j :: i < j < |items| ==> items[j].0 != items[i].0
    ensures items[i].0 in ToMap(items) && ToMap(items)[items[i].0] == items[i].1
  {
    if i < |items| - 1 {
      ToMapLookup(items[..|items| - 1], i);
    }
  }

  lemma {:induction false} ToMapKeys<V>(items: seq<(string, V)>, k: string)
    ensures k in ToMap(items) <==> exists i :: 0 <= i < |items| && items[i].0 == k
  {
    if |items| > 0 {
      var n := |items| - 1;
      ToMapKeys(items[..n], k);
      if k in ToMap(items[..n]) {
        var i :| 0 <= i < n && items[..n][i].0 == k;
        assert items[i].0 == k;
      }
      if i :| 0 <= i < n && items[i].0 == k {
        assert items[..n][i].0 == k;
      }
    }
  }

  /** The inner loop of `convert_q_table`: the text of each action with its value, values
   *  equal to 0 left out. */
  function SavedEntries(es: seq<Entry>): seq<(string, real)>
  {
    if |es| == 0 then []
    else
      var e := es[|es| - 1];
      SavedEntries(es[..|es| - 1]) + (if e.value == 0.0 then [] else [(ActionText(e.action.data), e.value)])
  }

  /** The items `convert_q_table` writes: one per row that has entries (possibly with none of
   *  them left), in table order. */
  function SavedRows(t: seq<Row>): seq<(string, seq<(string, real)>)>
  {
    if |t| == 0 then []
    else
      var r := t[|t| - 1];
      SavedRows(t[..|t| - 1]) + (if |r.entries| == 0 then [] else [(StateText(r.state.data), SavedEntries(r.entries))])
  }

  /** `convert_q_table(q_table)`: rows with the same state text collapse into the later one,
   *  and so do entries with the same action text. */
  function Converted(t: seq<Row>): map<string, map<string, real>>
  {
    if |t| == 0 then map[]
    else
      var r := t[|t| - 1];
      var m := Converted(t[..|t| - 1]);
      if |r.entries| == 0 then m else m[StateText(r.state.data) := ToMap(SavedEntries(r.entries))]
  }

  lemma ToMapAppend<V>(items: seq<(string, V)>, x: (string, V))
    ensures ToMap(items + [x]) == ToMap(items)[x.0 := x.1]
  {
    assert (items + [x])[..|items|] == items;
  }

  lemma SavedEntriesAppend(es: seq<Entry>, e: Entry)
    ensures SavedEntries(es + [e])
         == SavedEntries(es) + (if e.value == 0.0 then [] else [(ActionText(e.action.data), e.value)])
  {
    assert (es + [e])[..|es|] == es;
  }

  lemma SavedRowsAppend(t: seq<Row>, r: Row)
    ensures SavedRows(t + [r])
         == SavedRows(t) + (if |r.entries| == 0 then [] else [(StateText(r.state.data), SavedEntries(r.entries))])
  {
    assert (t + [r])[..|t|] == t;
  }

  lemma ConvertedAppend(t: seq<Row>, r: Row)
    ensures Converted(t + [r])
         == if |r.entries| == 0 then Converted(t) else Converted(t)[StateText(r.state.data) := ToMap(SavedEntries(r.entries))]
  {
    assert (t + [r])[..|t|] == t;
  }

  /** The saved dictionary holds exactly the state text of every row with entries. */
  lemma {:induction false} ConvertedHas(t: seq<Row>, k: string)
    ensures k in Converted(t) <==> exists i :: 0 <= i < |t| && |t[i].entries| > 0 && StateText(t[i].state.data) == k
  {
    if |t| > 0 {
      var n := |t| - 1;
      var p, r := t[..n], t[n];
      assert t == p + [r];
      ConvertedAppend(p, r);
      ConvertedHas(p, k);
      if k in Converted(t) {
        if !(|r.entries| > 0 && StateText(r.state.data) == k) {
          var i :| 0 <= i < |p| && |p[i].entries| > 0 && StateText(p[i].state.data) == k;
          assert t[i] == p[i];
        }
      } else {
        forall i | 0 <= i < |t| ensures !(|t[i].entries| > 0 && StateText(t[i].state.data) == k) {
          if i < n {
            assert t[i] == p[i];
          }
        }
      }
    }
  }

  /** A state text's saved dictionary is that of the last row with entries printing as it. */
  lemma {:induction false} ConvertedValue(t: seq<Row>, i: nat)
    requires i < |t| && |t[i].entries| > 0
    requires forall j :: i < j < |t| && |t[j].entries| > 0 ==> StateText(t[j].state.data) != StateText(t[i].state.data)
    ensures StateText(t[i].state.data) in Converted(t)
    ensures Converted(t)[StateText(t[i].state.data)] == ToMap(SavedEntries(t[i].entries))
  {
    var n := |t| - 1;
    var p, r := t[..n], t[n];
    assert t == p + [r];
    ConvertedAppend(p, r);
    if i < n {
      assert p[i] == t[i];
      ConvertedValue(p, i);
    }
  }

  /** The inner loop of `convert_q_table`: one row's dictionary. */
  method ConvertEntries(es: seq<Entry>) returns (inner: map<string, real>)
    ensures inner == ToMap(SavedEntries(es))
  {
    inner := map[];
    var j := 0;
    while j < |es|
      invariant 0 <= j <= |es|
      invariant inner == ToMap(SavedEntries(es[..j]))
    {
      var e := es[j];
      assert es[..j + 1] == es[..j] + [e];
      SavedEntriesAppend(es[..j], e);
      if e.value != 0.0 {
        ToMapAppend(SavedEntries(es[..j]), (ActionText(e.action.data), e.value));
        assert SavedEntries(es[..j + 1]) == SavedEntries(es[..j]) + [(ActionText(e.action.data), e.value)];
        inner := inner[ActionText(e.action.data) := e.value];
      } else {
        assert SavedEntries(es[..j + 1]) == SavedEntries(es[..j]);
      }
      j := j + 1;
    }
    assert es[..j] == es;
  }

  lemma ConvertedPrefixStep(t: seq<Row>, i: nat)
    requires i < |t|
    ensures Converted(t[..i + 1])
         == if |t[i].entries| == 0 then Converted(t[..i])
            else Converted(t[..i])[StateText(t[i].state.data) := ToMap(SavedEntries(t[i].entries))]
  {
    assert t[..i + 1] == t[..i] + [t[i]];
    ConvertedAppend(t[..i], t[i]);
  }

  /** `convert_q_table`: rows visited in table order, rows without entries skipped. */
  method ConvertQTable(t: seq<Row>) returns (m: map<string, map<string, real>>)
    ensures m == Converted(t)
  {
    m := map[];
    var i := 0;
    assert t[..0] == [];
    while i < |t|
      invariant 0 <= i <= |t|
      invariant m == Converted(t[..i])
    {
      ConvertedPrefixStep(t, i);
      if |t[i].entries| != 0 {
        var inner := ConvertEntries(t[i].entries);
        m := m[StateText(t[i].state.data) := inner];
      }
      i := i + 1;
    }
    assert t[..i] == t;
  }

  // ---------------------------------------------------------------------------
  // Loading.

  /** A table's contents without the object identities: each row's state data with its
   *  entries' action data and values. */
  function EntryData(es: seq<Entry>): seq<(ActionData, real)>
  {
    seq(|es|, j requires 0 <= j < |es| => (es[j].action.data, es[j].value))
  }

  function DataOf(t: seq<Row>): seq<(StateData, seq<(ActionData, real)>)>
  {
    seq(|t|, i requires 0 <= i < |t| => (t[i].state.data, EntryData(t[i].entries)))
  }

  /** Every action text read (a `ValueError` is `None`), with its value. */
  function ReadEntries(items: seq<(string, real)>): (ps: seq<(Option<ActionData>, real)>)
    ensures |ps| == |items|
  {
    seq(|items|, j requires 0 <= j < |items| => (ActionFromText(items[j].0), items[j].1))
  }

  /** The inner loop of `load_q_table` on the texts read: it stops at the first text that
   *  could not be read, and keeps the entries whose value is not 0. */
  function GatherEntries(ps: seq<(Option<ActionData>, real)>): Option<seq<(ActionData, real)>>
  {
    if |ps| == 0 then Some([])
    else
      var x := ps[|ps| - 1];
      match (GatherEntries(ps[..|ps| - 1]), x.0)
      case (Some(prev), Some(d)) => Some(prev + (if x.1 != 0.0 then [(d, x.1)] else []))
      case _ => None
  }

  function LoadEntries(items: seq<(string, real)>): Option<seq<(ActionData, real)>>
  {
    GatherEntries(ReadEntries(items))
  }

  /** Every state text read, with its entries. */
  function ReadRows(items: seq<(string, seq<(string, real)>)>): (ps: seq<(Option<StateData>, seq<(string, real)>)>)
    ensures |ps| == |items|
  {
    seq(|items|, i requires 0 <= i < |items| => (StateFromText(items[i].0), items[i].1))
  }

  /** `load_q_table` on the state texts read: every state text is read, even that of an
   *  item with no entries, which is then skipped; an item with entries gives a row, even
   *  when all of them are 0. */
  function GatherRows(ps: seq<(Option<StateData>, seq<(string, real)>)>): Option<seq<(StateData, seq<(ActionData, real)>)>>
  {
    if |ps| == 0 then Some([])
    else
      var x := ps[|ps| - 1];
      match (GatherRows(ps[..|ps| - 1]), x.0)
      case (Some(prev), Some(d)) =>
        if |x.1| == 0 then Some(prev)
        else (match LoadEntries(x.1)
              case Some(es) => Some(prev + [(d, es)])
              case None => None)
      case _ => None
  }

  function LoadRows(items: seq<(string, seq<(string, real)>)>): Option<seq<(StateData, seq<(ActionData, real)>)>>
  {
    GatherRows(ReadRows(items))
  }

  lemma ReadEntriesAppend(items: seq<(string, real)>, x: (string, real))
    ensures ReadEntries(items + [x]) == ReadEntries(items) + [(ActionFromText(x.0), x.1)]
  {
  }

  lemma ReadRowsAppend(items: seq<(string, seq<(string, real)>)>, x: (string, seq<(string, real)>))
    ensures ReadRows(items + [x]) == ReadRows(items) + [(StateFromText(x.0), x.1)]
  {
  }

  lemma GatherEntriesAppend(ps: seq<(Option<ActionData>, real)>, x: (Option<ActionData>, real))
    ensures GatherEntries(ps + [x])
         == match (GatherEntries(ps), x.0)
            case (Some(prev), Some(d)) => Some(prev + (if x.1 != 0.0 then [(d, x.1)] else []))
            case _ => None
  {
    assert (ps + [x])[..|ps|] == ps;
  }

  lemma GatherRowsAppend(ps: seq<(Option<StateData>, seq<(string, real)>)>, x: (Option<StateData>, seq<(string, real)>))
    ensures GatherRows(ps + [x])
         == match (GatherRows(ps), x.0)
            case (Some(prev), Some(d)) =>
              if |x.1| == 0 then Some(prev)
              else (match LoadEntries(x.1)
                    case Some(es) => Some(prev + [(d, es)])
                    case None => None)
            case _ => None
  {
    assert (ps + [x])[..|ps|] == ps;
  }

  lemma {:induction false} GatherEntriesPrefixFails(ps: seq<(Option<ActionData>, real)>, j: nat)
    requires j <= |ps| && GatherEntries(ps[..j]).None?
    ensures GatherEntries(ps).None?
    decreases |ps| - j
  {
    if j < |ps| {
      assert ps[..j + 1] == ps[..j] + [ps[j]];
      GatherEntriesAppend(ps[..j], ps[j]);
      GatherEntriesPrefixFails(ps, j + 1);
    } else {
      assert ps[..j] == ps;
    }
  }

  lemma {:induction false} GatherRowsPrefixFails(ps: seq<(Option<StateData>, seq<(string, real)>)>, i: nat)
    requires i <= |ps| && GatherRows(ps[..i]).None?
    ensures GatherRows(ps).None?
    decreases |ps| - i
  {
    if i < |ps| {
      assert ps[..i + 1] == ps[..i] + [ps[i]];
      GatherRowsAppend(ps[..i], ps[i]);
      GatherRowsPrefixFails(ps, i + 1);
    } else {
      assert ps[..i] == ps;
    }
  }

  /** One step of the entry loop: a text read extends the entries so far, a text that could
   *  not be read fails the whole load. */
  lemma GatherEntriesStep(ps: seq<(Option<ActionData>, real)>, j: nat)
    requires j < |ps|
    ensures GatherEntries(ps[..j]).Some? && ps[j].0.Some? ==>
              GatherEntries(ps[..j + 1])
              == Some(GatherEntries(ps[..j]).value + (if ps[j].1 != 0.0 then [(ps[j].0.value, ps[j].1)] else []))
    ensures ps[j].0.None? ==> GatherEntries(ps).None?
  {
    assert ps[..j + 1] == ps[..j] + [ps[j]];
    GatherEntriesAppend(ps[..j], ps[j]);
    if ps[j].0.None? {
      GatherEntriesPrefixFails(ps, j + 1);
    }
  }

  /** One step of the row loop. */
  lemma GatherRowsStep(ps: seq<(Option<StateData>, seq<(string, real)>)>, i: nat)
    requires i < |ps|
    ensures GatherRows(ps[..i]).Some? && ps[i].0.Some? ==>
              GatherRows(ps[..i + 1])
              == if |ps[i].1| == 0 then GatherRows(ps[..i])
                 else (match LoadEntries(ps[i].1)
                       case Some(es) => Some(GatherRows(ps[..i]).value + [(ps[i].0.value, es)])
                       case None => None)
    ensures GatherRows(ps[..i + 1]).None? ==> GatherRows(ps).None?
  {
    assert ps[..i + 1] == ps[..i] + [ps[i]];
    GatherRowsAppend(ps[..i], ps[i]);
    if GatherRows(ps[..i + 1]).None? {
      GatherRowsPrefixFails(ps, i + 1);
    }
  }

  /** The inner loop of `load_q_table`: one item's entries, as new `Action` objects. */
  method LoadEntryItems(items: seq<(string, real)>) returns (es: seq<Entry>, ok: bool)
    ensures ok == LoadEntries(items).Some?
    ensures ok ==> EntryData(es) == LoadEntries(items).value && ActionsDistinct(es)
    ensures forall e :: e in es ==> fresh(e.action)
  {
    es, ok := GatherEntryItems(ReadEntries(items));
  }

  /** The inner loop once every action text has been read. */
  method GatherEntryItems(ps: seq<(Option<ActionData>, real)>) returns (es: seq<Entry>, ok: bool)
    ensures ok == GatherEntries(ps).Some?
    ensures ok ==> EntryData(es) == GatherEntries(ps).value && ActionsDistinct(es)
    ensures forall e :: e in es ==> fresh(e.action)
  {
    es := [];
    var j := 0;
    assert ps[..0] == [] && EntryData(es) == [];
    while j < |ps|
      invariant 0 <= j <= |ps|
      invariant GatherEntries(ps[..j]) == Some(EntryData(es))
      invariant ActionsDistinct(es)
      invariant forall e :: e in es ==> fresh(e.action)
    {
      var a, v := ps[j].0, ps[j].1;
      GatherEntriesStep(ps, j);
      if a.None? {
        return [], false;
      }
      if v != 0.0 {
        var action := new Action(a.value);
        assert EntryData(es + [Entry(action, v)]) == EntryData(es) + [(a.value, v)];
        es := es + [Entry(action, v)];
      } else {
        assert EntryData(es) + [] == EntryData(es);
      }
      j := j + 1;
    }
    assert ps[..j] == ps;
    ok := true;
  }

  /** `load_q_table`: items read in file order, each row keyed by a new `State` object, so
   *  the keys are distinct. */
  method LoadQTable(items: seq<(string, seq<(string, real)>)>) returns (t: seq<Row>, ok: bool)
    ensures ok == LoadRows(items).Some?
    ensures ok ==> DataOf(t) == LoadRows(items).value && WellFormed(t)
  {
    t, ok := GatherRowItems(ReadRows(items));
  }

  /** A row with a new key and distinct actions keeps a loaded table well formed. */
  lemma LoadedRowAppend(t: seq<Row>, r: Row)
    requires WellFormed(t) && ActionsDistinct(r.entries)
    requires forall k :: 0 <= k < |t| ==> t[k].state != r.state
    ensures WellFormed(t + [r])
    ensures DataOf(t + [r]) == DataOf(t) + [(r.state.data, EntryData(r.entries))]
  {
  }

  /** `load_q_table` once every state text has been read. */
  method GatherRowItems(ps: seq<(Option<StateData>, seq<(string, real)>)>) returns (t: seq<Row>, ok: bool)
    ensures ok == GatherRows(ps).Some?
    ensures ok ==> DataOf(t) == GatherRows(ps).value && WellFormed(t)
  {
    t := [];
    var i := 0;
    assert ps[..0] == [] && DataOf(t) == [];
    while i < |ps|
      invariant 0 <= i <= |ps|
      invariant GatherRows(ps[..i]) == Some(DataOf(t))
      invariant WellFormed(t)
      invariant forall r :: r in t ==> fresh(r.state)
    {
      var d, entries := ps[i].0, ps[i].1;
      GatherRowsStep(ps, i);
      if d.None? {
        return [], false;
      }
      if |entries| != 0 {
        var es, entriesOk := LoadEntryItems(entries);
        if !entriesOk {
          return [], false;
        }
        var state := new State(d.value);
        LoadedRowAppend(t, Row(state, es));
        t := t + [Row(state, es)];
      }
      i := i + 1;
    }
    assert ps[..i] == ps;
    ok := true;
  }

  // ---------------------------------------------------------------------------
  // Loading what was saved.

  /** The part of a table that survives saving and loading: the rows with at least one
   *  non-zero value, with their non-zero entries. */
  function KeptEntries(es: seq<Entry>): seq<(ActionData, real)>
  {
    if |es| == 0 then []
    else
      var e := es[|es| - 1];
      KeptEntries(es[..|es| - 1]) + (if e.value == 0.0 then [] else [(e.action.data, e.value)])
  }

  function Kept(t: seq<Row>): seq<(StateData, seq<(ActionData, real)>)>
  {
    if |t| == 0 then []
    else
      var r := t[|t| - 1];
      Kept(t[..|t| - 1]) + (if |KeptEntries(r.entries)| == 0 then [] else [(r.state.data, KeptEntries(r.entries))])
  }

  /** Every key prints in a form that reads back: a state with at least one fog tuple and
   *  tuples of two or more entries, an action whose id holds neither ", " nor "Action: " and
   *  whose numbers print in full. */
  ghost predicate StatePrintable(d: StateData)
  {
    |d.fogNodesData| >= 1 && |d.taskData| >= 2
    && forall i :: 0 <= i < |d.fogNodesData| ==> |d.fogNodesData[i]| >= 2
  }

  ghost predicate ActionPrintable(a: ActionData)
  {
    Find(a.id, ", ") == None && Find(a.id, "Action: ") == None
    && Representable(a.x) && Representable(a.y) && Representable(a.speed)
    && Representable(a.angle) && Representable(a.power)
  }

  ghost predicate Printable(t: seq<Row>)
  {
    forall i :: 0 <= i < |t| && |t[i].entries| > 0 ==>
      StatePrintable(t[i].state.data)
      && forall j :: 0 <= j < |t[i].entries| && t[i].entries[j].value != 0.0 ==>
           ActionPrintable(t[i].entries[j].action.data)
  }

  lemma KeptEntriesAppend(es: seq<Entry>, e: Entry)
    ensures KeptEntries(es + [e]) == KeptEntries(es) + (if e.value == 0.0 then [] else [(e.action.data, e.value)])
  {
    assert (es + [e])[..|es|] == es;
  }

  lemma KeptAppend(t: seq<Row>, r: Row)
    ensures Kept(t + [r])
         == Kept(t) + (if |KeptEntries(r.entries)| == 0 then [] else [(r.state.data, KeptEntries(r.entries))])
  {
    assert (t + [r])[..|t|] == t;
  }

  lemma {:induction false} LoadSavedEntries(es: seq<Entry>)
    requires forall j :: 0 <= j < |es| && es[j].value != 0.0 ==> ActionPrintable(es[j].action.data)
    ensures LoadEntries(SavedEntries(es)) == Some(KeptEntries(es))
    ensures |SavedEntries(es)| == |KeptEntries(es)|
  {
    if |es| > 0 {
      var n := |es| - 1;
      var p, e := es[..n], es[n];
      assert es == p + [e];
      LoadSavedEntries(p);
      SavedEntriesAppend(p, e);
      KeptEntriesAppend(p, e);
      if e.value != 0.0 {
        var x := (ActionText(e.action.data), e.value);
        ActionRoundTrip(e.action.data);
        ReadEntriesAppend(SavedEntries(p), x);
        GatherEntriesAppend(ReadEntries(SavedEntries(p)), (Some(e.action.data), e.value));
        assert SavedEntries(es) == SavedEntries(p) + [x];
        assert LoadEntries(SavedEntries(p) + [x]) == Some(KeptEntries(p) + [(e.action.data, e.value)]);
        assert KeptEntries(es) == KeptEntries(p) + [(e.action.data, e.value)];
      } else {
        assert SavedEntries(es) == SavedEntries(p);
        assert KeptEntries(es) == KeptEntries(p);
      }
    }
  }

  /** Loading the saved items of a table gives back its contents: the states and actions of
   *  the rows with at least one non-zero value, with those values, in table order. */
  lemma {:induction false} LoadSavedRows(t: seq<Row>)
    requires Printable(t)
    ensures LoadRows(SavedRows(t)) == Some(Kept(t))
  {
    if |t| > 0 {
      var n := |t| - 1;
      var p, r := t[..n], t[n];
      assert t == p + [r];
      assert forall i :: 0 <= i < n ==> p[i] == t[i];
      LoadSavedRows(p);
      SavedRowsAppend(p, r);
      KeptAppend(p, r);
      if |r.entries| > 0 {
        var x := (StateText(r.state.data), SavedEntries(r.entries));
        StateRoundTrip(r.state.data);
        LoadSavedEntries(r.entries);
        ReadRowsAppend(SavedRows(p), x);
        GatherRowsAppend(ReadRows(SavedRows(p)), (Some(r.state.data), x.1));
        assert SavedRows(t) == SavedRows(p) + [x];
        if |KeptEntries(r.entries)| == 0 {
          assert LoadRows(SavedRows(p) + [x]) == Some(Kept(p));
          assert Kept(t) == Kept(p);
        } else {
          assert LoadRows(SavedRows(p) + [x]) == Some(Kept(p) + [(r.state.data, KeptEntries(r.entries))]);
          assert Kept(t) == Kept(p) + [(r.state.data, KeptEntries(r.entries))];
        }
      } else {
        assert SavedRows(t) == SavedRows(p);
        assert KeptEntries(r.entries) == [];
        assert Kept(t) == Kept(p);
      }
    }
  }

  // ---------------------------------------------------------------------------
  // The saved items as the dictionary `convert_q_table` returns.

  /** Item lists whose keys are pairwise distinct. */
  ghost predicate KeysApart<V>(items: seq<(string, V)>)
  {
    forall i, j :: 0 <= i < j < |items| ==> items[i].0 != items[j].0
  }

  /** Items with distinct keys are exactly the items of the dictionary they build, one per
   *  key, each with its value (a dictionary lists its items in the order they were added). */
  lemma {:induction false} ToMapListing<V>(items: seq<(string, V)>)
    requires KeysApart(items)
    ensures |ToMap(items)| == |items|
    ensures forall i :: 0 <= i < |items| ==> items[i].0 in ToMap(items) && ToMap(items)[items[i].0] == items[i].1
  {
    if |items| > 0 {
      var n := |items| - 1;
      var p := items[..n];
      assert forall i, j :: 0 <= i < j < |p| ==> p[i] == items[i] && p[j] == items[j];
      ToMapListing(p);
      ToMapKeys(p, items[n].0);
      assert items[n].0 !in ToMap(p) by {
        forall i | 0 <= i < n ensures p[i].0 != items[n].0 {
          assert p[i] == items[i];
        }
      }
      forall i | 0 <= i < |items|
        ensures items[i].0 in ToMap(items) && ToMap(items)[items[i].0] == items[i].1
      {
        ToMapLookup(items, i);
      }
    }
  }

  /** The saved items with each row's items made into that row's dictionary. */
  function Nested(items: seq<(string, seq<(string, real)>)>): seq<(string, map<string, real>)>
  {
    seq(|items|, i requires 0 <= i < |items| => (items[i].0, ToMap(items[i].1)))
  }

  lemma NestedAppend(items: seq<(string, seq<(string, real)>)>, x: (string, seq<(string, real)>))
    ensures Nested(items + [x]) == Nested(items) + [(x.0, ToMap(x.1))]
  {
    var a, b := Nested(items + [x]), Nested(items) + [(x.0, ToMap(x.1))];
    assert |a| == |b|;
    forall i | 0 <= i < |a| ensures a[i] == b[i] {
      if i < |items| {
        assert (items + [x])[i] == items[i];
      }
    }
  }

  /** The dictionary `convert_q_table` returns is the one its saved items build. */
  lemma {:induction false} ConvertedFromSaved(t: seq<Row>)
    ensures Converted(t) == ToMap(Nested(SavedRows(t)))
  {
    if |t| > 0 {
      var n := |t| - 1;
      var p, r := t[..n], t[n];
      assert t == p + [r];
      ConvertedFromSaved(p);
      ConvertedAppend(p, r);
      SavedRowsAppend(p, r);
      if |r.entries| > 0 {
        var x := (StateText(r.state.data), SavedEntries(r.entries));
        NestedAppend(SavedRows(p), x);
        ToMapAppend(Nested(SavedRows(p)), (x.0, ToMap(x.1)));
        calc {
          ToMap(Nested(SavedRows(t)));
          { assert SavedRows(t) == SavedRows(p) + [x]; }
          ToMap(Nested(SavedRows(p)) + [(x.0, ToMap(x.1))]);
          ToMap(Nested(SavedRows(p)))[x.0 := ToMap(x.1)];
        }
      } else {
        assert SavedRows(t) == SavedRows(p);
      }
    }
  }

  /** No two non-zero entries of a row print the same action text. */
  ghost predicate EntryTextsApart(es: seq<Entry>)
  {
    forall j, k :: 0 <= j < k < |es| && es[j].value != 0.0 && es[k].value != 0.0 ==>
      ActionText(es[j].action.data) != ActionText(es[k].action.data)
  }

  /** No two rows with entries print the same state text, and no row repeats an action text. */
  ghost predicate TextsApart(t: seq<Row>)
  {
    (forall i, j :: 0 <= i < j < |t| && |t[i].entries| > 0 && |t[j].entries| > 0 ==>
       StateText(t[i].state.data) != StateText(t[j].state.data))
    && forall i :: 0 <= i < |t| ==> EntryTextsApart(t[i].entries)
  }

  /** Every saved entry prints a non-zero entry of the row. */
  lemma {:induction false} SavedEntryFrom(es: seq<Entry>, k: nat)
    requires k < |SavedEntries(es)|
    ensures exists j :: 0 <= j < |es| && es[j].value != 0.0 && SavedEntries(es)[k].0 == ActionText(es[j].action.data)
  {
    var n := |es| - 1;
    var p, e := es[..n], es[n];
    assert es == p + [e];
    SavedEntriesAppend(p, e);
    if k < |SavedEntries(p)| {
      SavedEntryFrom(p, k);
      var j :| 0 <= j < |p| && p[j].value != 0.0 && SavedEntries(p)[k].0 == ActionText(p[j].action.data);
      assert es[j] == p[j];
    } else {
      assert SavedEntries(es)[k].0 == ActionText(es[n].action.data);
    }
  }

  lemma {:induction false} SavedEntriesApart(es: seq<Entry>)
    requires EntryTextsApart(es)
    ensures KeysApart(SavedEntries(es))
  {
    if |es| > 0 {
      var n := |es| - 1;
      var p, e := es[..n], es[n];
      assert es == p + [e];
      assert forall j :: 0 <= j < n ==> p[j] == es[j];
      SavedEntriesApart(p);
      SavedEntriesAppend(p, e);
      if e.value != 0.0 {
        forall k | 0 <= k < |SavedEntries(p)|
          ensures SavedEntries(p)[k].0 != ActionText(e.action.data)
        {
          SavedEntryFrom(p, k);
        }
      }
    }
  }

  /** Every saved item prints a row with entries. */
  lemma {:induction false} SavedRowFrom(t: seq<Row>, k: nat)
    requires k < |SavedRows(t)|
    ensures exists i :: 0 <= i < |t| && |t[i].entries| > 0
              && SavedRows(t)[k] == (StateText(t[i].state.data), SavedEntries(t[i].entries))
  {
    var n := |t| - 1;
    var p, r := t[..n], t[n];
    assert t == p + [r];
    SavedRowsAppend(p, r);
    if k < |SavedRows(p)| {
      SavedRowFrom(p, k);
      var i :| 0 <= i < |p| && |p[i].entries| > 0 && SavedRows(p)[k] == (StateText(p[i].state.data), SavedEntries(p[i].entries));
      assert t[i] == p[i];
    } else {
      assert SavedRows(t)[k] == (StateText(t[n].state.data), SavedEntries(t[n].entries));
    }
  }

  lemma {:induction false} SavedRowsApart(t: seq<Row>)
    requires TextsApart(t)
    ensures KeysApart(SavedRows(t))
  {
    if |t| > 0 {
      var n := |t| - 1;
      var p, r := t[..n], t[n];
      assert t == p + [r];
      assert forall i :: 0 <= i < n ==> p[i] == t[i];
      SavedRowsApart(p);
      SavedRowsAppend(p, r);
      if |r.entries| > 0 {
        forall k | 0 <= k < |SavedRows(p)|
          ensures SavedRows(p)[k].0 != StateText(r.state.data)
        {
          SavedRowFrom(p, k);
        }
      }
    }
  }

  /** When no two rows with entries print alike and no row repeats an action text, the saved
   *  items are exactly the items of the dictionary `convert_q_table` writes: one per state
   *  text, each with exactly the items of that row's dictionary. */
  lemma {:induction false} SavedListsConverted(t: seq<Row>)
    requires TextsApart(t)
    ensures |Converted(t)| == |SavedRows(t)|
    ensures forall k :: 0 <= k < |SavedRows(t)| ==>
              SavedRows(t)[k].0 in Converted(t) && Converted(t)[SavedRows(t)[k].0] == ToMap(SavedRows(t)[k].1)
              && |ToMap(SavedRows(t)[k].1)| == |SavedRows(t)[k].1|
  {
    var s := SavedRows(t);
    var ns := Nested(s);
    ConvertedFromSaved(t);
    SavedRowsApart(t);
    assert KeysApart(ns) by {
      assert forall k :: 0 <= k < |s| ==> ns[k].0 == s[k].0;
    }
    ToMapListing(ns);
    forall k | 0 <= k < |s|
      ensures s[k].0 in Converted(t) && Converted(t)[s[k].0] == ToMap(s[k].1) && |ToMap(s[k].1)| == |s[k].1|
    {
      assert ns[k] == (s[k].0, ToMap(s[k].1));
      SavedRowFrom(t, k);
      var i :| 0 <= i < |t| && |t[i].entries| > 0 && s[k] == (StateText(t[i].state.data), SavedEntries(t[i].entries));
      SavedEntriesApart(t[i].entries);
      ToMapListing(s[k].1);
    }
  }

  /** Hence reading the saved file back item by item reads `SavedRows(t)`, and loading it
   *  gives back the kept table. */
  lemma LoadConverted(t: seq<Row>)
    requires TextsApart(t) && Printable(t)
    ensures |Converted(t)| == |SavedRows(t)|
    ensures forall k :: 0 <= k < |SavedRows(t)| ==>
              SavedRows(t)[k].0 in Converted(t) && Converted(t)[SavedRows(t)[k].0] == ToMap(SavedRows(t)[k].1)
    ensures LoadRows(SavedRows(t)) == Some(Kept(t))
  {
    SavedListsConverted(t);
    LoadSavedRows(t);
  }

  /** A row whose values are all 0 is saved as an empty dictionary and is gone after loading. */
  lemma ZeroRowIsDropped(s: State, a: Action)
    requires StatePrintable(s.data)
    ensures SavedRows([Row(s, [Entry(a, 0.0)])]) == [(StateText(s.data), [])]
    ensures LoadRows(SavedRows([Row(s, [Entry(a, 0.0)])])) == Some([])
  {
    var t := [Row(s, [Entry(a, 0.0)])];
    SavedEntriesAppend([], Entry(a, 0.0));
    assert [] + [Entry(a, 0.0)] == [Entry(a, 0.0)];
    SavedRowsAppend([], t[0]);
    assert [] + t == t;
    KeptEntriesAppend([], Entry(a, 0.0));
    KeptAppend([], t[0]);
    LoadSavedRows(t);
  }
}
