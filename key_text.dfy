/** The text forms of Q-table keys (Code/Learner.py): `State.__str__` / `State.from_str` and
 *  `Action.__str__` / `Action.from_str`. They are how a saved table names its entries. */
module KeyText {
  import opened Wrappers
  import opened PyText
  import opened LearnerKeys

  // ---------------------------------------------------------------------------
  // Rendering.

  function IntTexts(t: seq<int>): (r: seq<string>)
    ensures |r| == |t| && forall i :: 0 <= i < |t| ==> r[i] == IntText(t[i])
  {
    seq(|t|, i requires 0 <= i < |t| => IntText(t[i]))
  }

  /** The entries of a tuple as Python prints them between the parentheses. */
  function TupleBody(t: seq<int>): string
  {
    Join(IntTexts(t), ", ")
  }

  /** Python's `str` of a tuple of ints: "(1, 2)", "(3,)", "()". */
  function TupleText(t: seq<int>): string
  {
    if |t| == 1 then "(" + IntText(t[0]) + ",)" else "(" + TupleBody(t) + ")"
  }

  function TupleTexts(ts: seq<seq<int>>): (r: seq<string>)
    ensures |r| == |ts| && forall i :: 0 <= i < |ts| ==> r[i] == TupleText(ts[i])
  {
    seq(|ts|, i requires 0 <= i < |ts| => TupleText(ts[i]))
  }

  /** Python's `str` of a list of tuples: "[(1, 2), (3, 4)]". */
  function ListText(ts: seq<seq<int>>): string
  {
    "[" + Join(TupleTexts(ts), ", ") + "]"
  }

  /** `State.__str__`: "State: " followed by the fog list and the task tuple. */
  function StateText(d: StateData): string
  {
    "State: " + ListText(d.fogNodesData) + ", " + TupleText(d.taskData)
  }

  /** `Action.__str__`: "Action: " followed by the id and the five numbers, comma separated. */
  function ActionText(a: ActionData): string
  {
    "Action: " + Join([a.id, RealText(a.x), RealText(a.y), RealText(a.speed), RealText(a.angle),
                       RealText(a.power)], ", ")
  }

  // ---------------------------------------------------------------------------
  // Parsing. A `ValueError` of the source is None here.

  /** All values when every one is present, else None. */
  function Collect<T>(opts: seq<Option<T>>): (r: Option<seq<T>>)
    ensures r.Some? ==> |r.value| == |opts|
  {
    if |opts| == 0 then Some([])
    else
      match opts[0]
      case None => None
      case Some(v) =>
        match Collect(opts[1..])
        case None => None
        case Some(vs) => Some([v] + vs)
  }

  /** `tuple(map(int, parts))`. */
  function ParseInts(parts: seq<string>): Option<seq<int>>
  {
    Collect(seq(|parts|, i requires 0 <= i < |parts| => ParseInt(parts[i])))
  }

  /** One tuple of `from_str`: drop every parenthesis, split at ", ", read the ints. */
  function ParseTuple(p: string): Option<seq<int>>
  {
    ParseInts(Split(Replace(Replace(p, "(", ""), ")", ""), ", "))
  }

  function ParseTuples(parts: seq<string>): Option<seq<seq<int>>>
  {
    Collect(seq(|parts|, i requires 0 <= i < |parts| => ParseTuple(parts[i])))
  }

  /** `State.from_str`: drop "State: [" and every "(", cut at "], " into exactly two
   *  halves, cut the fog half at "), " and read every piece as a tuple. */
  function StateFromText(s: string): Option<StateData>
  {
    var body := Replace(Replace(s, "State: [", ""), "(", "");
    var halves := Split(body, "], ");
    if |halves| != 2 then None
    else
      match (ParseTuples(Split(halves[0], "), ")), ParseTuple(halves[1]))
      case (Some(fog), Some(task)) => Some(StateData(fog, task))
      case _ => None
  }

  /** `Action.from_str`: drop "Action: ", cut at ", " into exactly six fields and read the
   *  last five as floats. */
  function ActionFromText(s: string): Option<ActionData>
  {
    var fields := Split(Replace(s, "Action: ", ""), ", ");
    if |fields| != 6 then None
    else
      match (ParseReal(fields[1]), ParseReal(fields[2]), ParseReal(fields[3]),
             ParseReal(fields[4]), ParseReal(fields[5]))
      case (Some(x), Some(y), Some(speed), Some(angle), Some(power)) =>
        Some(ActionData(fields[0], x, y, speed, angle, power))
      case _ => None
  }

  // ---------------------------------------------------------------------------
  // Reading back what was printed.

  lemma {:induction false} CollectEach<T>(opts: seq<Option<T>>, vs: seq<T>)
    requires |opts| == |vs|
    requires forall i :: 0 <= i < |opts| ==> opts[i] == Some(vs[i])
    ensures Collect(opts) == Some(vs)
    decreases |opts|
  {
    if |opts| > 0 {
      CollectEach(opts[1..], vs[1..]);
      assert vs == [vs[0]] + vs[1..];
    }
  }

  /** A single missing value makes the whole collection None. */
  lemma {:induction false} CollectMissing<T>(opts: seq<Option<T>>, k: nat)
    requires k < |opts| && opts[k].None?
    ensures Collect(opts) == None
    decreases k
  {
    if k > 0 {
      CollectMissing(opts[1..], k - 1);
    }
  }

  /** Characters of a tuple body. */
  const BodyChars: set<char> := {'0', '1', '2', '3', '4', '5', '6', '7', '8', '9', '-', ',', ' '}
  /** Characters of a tuple body followed by closing parentheses. */
  const ClosedChars: set<char> := {'0', '1', '2', '3', '4', '5', '6', '7', '8', '9', '-', ',', ' ', ')'}
  /** Characters of a printed state after its "State: " prefix. */
  const StateChars: set<char> := {'0', '1', '2', '3', '4', '5', '6', '7', '8', '9', '-', ',', ' ', '(', ')', '[', ']'}

  lemma TupleBodyWithin(t: seq<int>, alphabet: set<char>)
    requires BodyChars <= alphabet
    ensures Within(TupleBody(t), alphabet)
  {
    var parts := IntTexts(t);
    forall k | 0 <= k < |parts| ensures Within(parts[k], alphabet) {
      IntTextWithin(t[k], alphabet);
    }
    SingleWithin(',', alphabet);
    SingleWithin(' ', alphabet);
    WithinConcat(",", " ", alphabet);
    assert ", " == "," + " ";
    WithinJoin(parts, ", ", alphabet);
  }

  lemma TupleTextWithin(t: seq<int>)
    ensures Within(TupleText(t), StateChars)
  {
    SingleWithin('(', StateChars);
    SingleWithin(')', StateChars);
    if |t| == 1 {
      IntTextWithin(t[0], StateChars);
      SingleWithin(',', StateChars);
      WithinConcat(",", ")", StateChars);
      WithinConcat("(", IntText(t[0]), StateChars);
      WithinConcat("(" + IntText(t[0]), ",)", StateChars);
      assert ",)" == "," + ")";
    } else {
      TupleBodyWithin(t, StateChars);
      WithinConcat("(", TupleBody(t), StateChars);
      WithinConcat("(" + TupleBody(t), ")", StateChars);
    }
  }

  /** A tuple body splits at ", " into the texts of its entries. */
  lemma SplitTupleBody(t: seq<int>)
    requires |t| >= 1
    ensures Split(TupleBody(t), ", ") == IntTexts(t)
  {
    var parts := IntTexts(t);
    IntTextsClean(t);
    IntTextCommaFree(t[|t| - 1]);
    FindMissingHead(parts[|parts| - 1], ", ");
    SplitJoin(parts, ", ");
  }

  /** A number's text holds no comma. */
  lemma IntTextCommaFree(n: int)
    ensures ',' !in IntText(n)
  {
    IntTextWithin(n, Numeral);
    NotWithin(IntText(n), Numeral, ',');
  }

  /** Every entry text of a tuple can be followed by ", " and cut off right after itself. */
  lemma IntTextsClean(t: seq<int>)
    ensures forall k :: 0 <= k < |t| ==> CleanPart(IntTexts(t)[k], ", ")
  {
    forall k | 0 <= k < |t|
      ensures CleanPart(IntTexts(t)[k], ", ")
    {
      IntTextCommaFree(t[k]);
      CleanPartIfHeadMissing(IntTexts(t)[k], ", ");
    }
  }

  /** Removing the parentheses from a tuple body with at most one ")" after it leaves the
   *  body. */
  lemma StripParens(t: seq<int>, x: string)
    requires x == "" || x == ")"
    ensures Replace(Replace(TupleBody(t) + x, "(", ""), ")", "") == TupleBody(t)
  {
    var b := TupleBody(t);
    TupleBodyWithin(t, ClosedChars);
    if x == ")" {
      SingleWithin(')', ClosedChars);
      WithinConcat(b, x, ClosedChars);
    } else {
      assert b + x == b;
    }
    NotWithin(b + x, ClosedChars, '(');
    FindMissingHead(b + x, "(");
    TupleBodyWithin(t, BodyChars);
    NotWithin(b, BodyChars, ')');
    ReplaceIsReplaceChar(b + x, ")", "");
    ReplaceCharConcat(b, x, ')', "");
    ReplaceCharAbsent(b, ')', "");
  }

  lemma ParseTupleBody(t: seq<int>, x: string)
    requires |t| >= 1 && (x == "" || x == ")")
    ensures ParseTuple(TupleBody(t) + x) == Some(t)
  {
    StripParens(t, x);
    SplitTupleBody(t);
    var parts := IntTexts(t);
    var opts := seq(|parts|, i requires 0 <= i < |parts| => ParseInt(parts[i]));
    forall i | 0 <= i < |t| ensures opts[i] == Some(t[i]) {
      IntTextRoundTrip(t[i]);
    }
    CollectEach(opts, t);
  }

  /** Removing "(" from a printed tuple of two or more entries leaves its body and ")". */
  lemma DropOpenParen(t: seq<int>)
    requires |t| != 1
    ensures ReplaceChar(TupleText(t), '(', "") == TupleBody(t) + ")"
  {
    var b := TupleBody(t);
    TupleBodyWithin(t, ClosedChars);
    SingleWithin(')', ClosedChars);
    WithinConcat(b, ")", ClosedChars);
    NotWithin(b + ")", ClosedChars, '(');
    ReplaceCharConcat("(", b + ")", '(', "");
    ReplaceCharAbsent(b + ")", '(', "");
    assert TupleText(t) == "(" + (b + ")");
  }

  /** The fog list and task tuple of a printed state, after its "State: [". */
  function StateRest(d: StateData): string
  {
    Join(TupleTexts(d.fogNodesData), ", ") + "], " + TupleText(d.taskData)
  }

  lemma StateRestWithin(d: StateData)
    ensures Within(StateRest(d), StateChars)
  {
    var ts := TupleTexts(d.fogNodesData);
    forall k | 0 <= k < |ts| ensures Within(ts[k], StateChars) {
      TupleTextWithin(d.fogNodesData[k]);
    }
    SingleWithin(',', StateChars);
    SingleWithin(' ', StateChars);
    SingleWithin(']', StateChars);
    WithinConcat(",", " ", StateChars);
    assert ", " == "," + " ";
    WithinJoin(ts, ", ", StateChars);
    WithinConcat("]", ", ", StateChars);
    assert "], " == "]" + ", ";
    WithinConcat(Join(ts, ", "), "], ", StateChars);
    TupleTextWithin(d.taskData);
    WithinConcat(Join(ts, ", ") + "], ", TupleText(d.taskData), StateChars);
  }

  /** The "State: [" prefix is removed and nothing else is. */
  lemma StripStatePrefix(d: StateData)
    ensures Replace(StateText(d), "State: [", "") == StateRest(d)
  {
    assert StateText(d) == "State: [" + StateRest(d);
    StateRestNoS(d);
    FindMissingHead(StateRest(d), "State: [");
    ReplaceLeading("State: [", StateRest(d));
  }

  /** The text after the prefix holds no letter "S". */
  lemma StateRestNoS(d: StateData)
    ensures 'S' !in StateRest(d)
  {
    StateRestWithin(d);
    assert 'S' !in StateChars;
    NotWithin(StateRest(d), StateChars, 'S');
  }

  /** Each fog tuple's body followed by ")". */
  function ClosedBodies(fog: seq<seq<int>>): (r: seq<string>)
    ensures |r| == |fog| && forall i :: 0 <= i < |fog| ==> r[i] == TupleBody(fog[i]) + ")"
  {
    seq(|fog|, i requires 0 <= i < |fog| => TupleBody(fog[i]) + ")")
  }

  /** Dropping every "(" after the prefix leaves the closed bodies, "], ", and the task body
   *  with its ")". */
  lemma DropOpenParens(d: StateData)
    requires forall i :: 0 <= i < |d.fogNodesData| ==> |d.fogNodesData[i]| >= 2
    requires |d.taskData| >= 2
    ensures Replace(StateRest(d), "(", "")
         == Join(ClosedBodies(d.fogNodesData), ", ") + "], " + (TupleBody(d.taskData) + ")")
  {
    var fog := d.fogNodesData;
    var j := Join(TupleTexts(fog), ", ");
    var closed := ClosedBodies(fog);
    forall i | 0 <= i < |fog| ensures ReplaceChar(TupleTexts(fog)[i], '(', "") == closed[i] {
      DropOpenParen(fog[i]);
    }
    ReplaceCharAbsent(", ", '(', "");
    ReplaceCharJoin(TupleTexts(fog), closed, ", ", '(', "");
    ReplaceIsReplaceChar(StateRest(d), "(", "");
    ReplaceCharConcat(j + "], ", TupleText(d.taskData), '(', "");
    ReplaceCharConcat(j, "], ", '(', "");
    ReplaceCharAbsent("], ", '(', "");
    DropOpenParen(d.taskData);
  }

  lemma ClosedBodiesWithin(fog: seq<seq<int>>)
    ensures Within(Join(ClosedBodies(fog), ", "), ClosedChars)
  {
    var closed := ClosedBodies(fog);
    SingleWithin(')', ClosedChars);
    forall k | 0 <= k < |fog| ensures Within(closed[k], ClosedChars) {
      TupleBodyWithin(fog[k], ClosedChars);
      WithinConcat(TupleBody(fog[k]), ")", ClosedChars);
    }
    SingleWithin(',', ClosedChars);
    SingleWithin(' ', ClosedChars);
    WithinConcat(",", " ", ClosedChars);
    assert ", " == "," + " ";
    WithinJoin(closed, ", ", ClosedChars);
  }

  /** The cut at "], " gives the fog half and the task half. */
  lemma SplitHalves(fog: seq<seq<int>>, task: seq<int>)
    ensures var a, b := Join(ClosedBodies(fog), ", "), TupleBody(task) + ")";
            Split(a + "], " + b, "], ") == [a, b]
  {
    var a, b := Join(ClosedBodies(fog), ", "), TupleBody(task) + ")";
    ClosedBodiesWithin(fog);
    NotWithin(a, ClosedChars, ']');
    CleanPartIfHeadMissing(a, "], ");
    TupleBodyWithin(task, ClosedChars);
    SingleWithin(')', ClosedChars);
    WithinConcat(TupleBody(task), ")", ClosedChars);
    NotWithin(b, ClosedChars, ']');
    FindMissingHead(b, "], ");
    SplitJoin([a, b], "], ");
    assert Join([a, b], "], ") == a + "], " + b;
  }

  /** The pieces of the fog half: every body, the last one still followed by ")". */
  function FogPieces(fog: seq<seq<int>>): (r: seq<string>)
    ensures |r| == |fog|
  {
    seq(|fog|, i requires 0 <= i < |fog| =>
      if i < |fog| - 1 then TupleBody(fog[i]) else TupleBody(fog[i]) + ")")
  }

  lemma SplitFogHalf(fog: seq<seq<int>>)
    requires |fog| >= 1
    ensures Split(Join(ClosedBodies(fog), ", "), "), ") == FogPieces(fog)
  {
    FogHalfJoins(fog);
    FogPiecesClean(fog);
    SplitJoin(FogPieces(fog), "), ");
  }

  /** The closed bodies joined by ", " are the fog pieces joined by "), ". */
  lemma FogHalfJoins(fog: seq<seq<int>>)
    requires |fog| >= 1
    ensures Join(ClosedBodies(fog), ", ") == Join(FogPieces(fog), "), ")
  {
    var n := |fog|;
    var bodies := seq(n, i requires 0 <= i < n => TupleBody(fog[i]));
    var pieces := bodies[..n - 1] + [bodies[n - 1] + ")"];
    forall k | 0 <= k < n ensures pieces[k] == FogPieces(fog)[k] {
    }
    assert pieces == FogPieces(fog);
    JoinClosed(bodies, ClosedBodies(fog));
  }

  /** Parts each followed by ")" and joined by ", " are the parts joined by "), " with one
   *  ")" after the last. */
  lemma JoinClosed(bodies: seq<string>, closed: seq<string>)
    requires |bodies| == |closed| >= 1
    requires forall i :: 0 <= i < |bodies| ==> closed[i] == bodies[i] + ")"
    ensures Join(closed, ", ") == Join(bodies[..|bodies| - 1] + [bodies[|bodies| - 1] + ")"], "), ")
  {
    var sep := ")" + ", ";
    assert sep == "), ";
    JoinSuffixed(bodies, closed, ")", ", ");
    JoinAppendLast(bodies, ")", sep);
  }

  /** A tuple body holds no ")". */
  lemma BodyUnclosed(t: seq<int>)
    ensures ')' !in TupleBody(t)
  {
    TupleBodyWithin(t, BodyChars);
    assert ')' !in BodyChars;
    NotWithin(TupleBody(t), BodyChars, ')');
  }

  /** No fog piece holds "), " before its end, so each can be cut off right after itself. */
  lemma FogPiecesClean(fog: seq<seq<int>>)
    requires |fog| >= 1
    ensures forall k :: 0 <= k < |fog| - 1 ==> CleanPart(FogPieces(fog)[k], "), ")
    ensures Find(FogPieces(fog)[|fog| - 1], "), ") == None
  {
    var n := |fog|;
    var pieces := FogPieces(fog);
    forall k | 0 <= k < n - 1 ensures CleanPart(pieces[k], "), ") {
      BodyUnclosed(fog[k]);
      assert pieces[k] == TupleBody(fog[k]);
      CleanPartIfHeadMissing(pieces[k], "), ");
    }
    BodyUnclosed(fog[n - 1]);
    assert pieces[n - 1] == TupleBody(fog[n - 1]) + ")";
    FindNoneBeforeTail(TupleBody(fog[n - 1]), ")", "), ");
  }

  lemma ParseFogPieces(fog: seq<seq<int>>)
    requires forall i :: 0 <= i < |fog| ==> |fog[i]| >= 2
    ensures ParseTuples(FogPieces(fog)) == Some(fog)
  {
    var n := |fog|;
    var pieces := FogPieces(fog);
    var opts := seq(n, i requires 0 <= i < n => ParseTuple(pieces[i]));
    forall k | 0 <= k < n ensures opts[k] == Some(fog[k]) {
      if k < n - 1 {
        assert pieces[k] == TupleBody(fog[k]) + "";
        ParseTupleBody(fog[k], "");
      } else {
        ParseTupleBody(fog[k], ")");
      }
    }
    CollectEach(opts, fog);
  }

  /** `State.from_str(str(S))` rebuilds `S` when the fog list is not empty and every tuple
   *  has at least two entries (the source's have five and seven). */
  lemma StateRoundTrip(d: StateData)
    requires |d.fogNodesData| >= 1
    requires forall i :: 0 <= i < |d.fogNodesData| ==> |d.fogNodesData[i]| >= 2
    requires |d.taskData| >= 2
    ensures StateFromText(StateText(d)) == Some(d)
  {
    StripStatePrefix(d);
    DropOpenParens(d);
    SplitHalves(d.fogNodesData, d.taskData);
    SplitFogHalf(d.fogNodesData);
    ParseFogPieces(d.fogNodesData);
    ParseTupleBody(d.taskData, ")");
  }

  /** A state with no fog nodes prints as "State: [], (...)" and cannot be read back. */
  lemma StateEmptyFogFails(task: seq<int>)
    ensures StateFromText(StateText(StateData([], task))) == None
  {
    EmptyFogBody(task);
    EmptyFogHalf(ReplaceChar(TupleText(task), '(', ""));
  }

  /** What is left of "State: [], (...)" once the prefix and the opening brackets go. */
  lemma EmptyFogBody(task: seq<int>)
    ensures Replace(Replace(StateText(StateData([], task)), "State: [", ""), "(", "")
            == "], " + ReplaceChar(TupleText(task), '(', "")
  {
    var t := TupleText(task);
    var rest := "], " + t;
    assert TupleTexts([]) == [];
    assert StateText(StateData([], task)) == "State: [" + rest;
    TupleTextWithin(task);
    SingleWithin(']', StateChars);
    SingleWithin(',', StateChars);
    SingleWithin(' ', StateChars);
    WithinConcat(",", " ", StateChars);
    WithinConcat("]", ", ", StateChars);
    assert "], " == "]" + (", ");
    WithinConcat("], ", t, StateChars);
    NotWithin(rest, StateChars, 'S');
    FindMissingHead(rest, "State: [");
    ReplaceLeading("State: [", rest);
    ReplaceIsReplaceChar(rest, "(", "");
    ReplaceCharConcat("], ", t, '(', "");
    ReplaceCharAbsent("], ", '(', "");
  }

  /** A body that starts with the fog/task separator has an empty fog half, which is no
   *  tuple. */
  lemma EmptyFogHalf(r: string)
    ensures var halves := Split("], " + r, "], ");
            |halves| == 2 ==> ParseTuples(Split(halves[0], "), ")) == None
  {
    var body := "], " + r;
    assert body[..3] == "], ";
    assert Find(body, "], ") == Some(0);
    assert Split(body, "], ")[0] == "";
    assert Find("", "), ") == None;
    assert Split("", "), ") == [""];
    assert Find("", "(") == None && Find("", ")") == None;
    assert Split("", ", ") == [""];
    assert ParseTuple("") == None;
  }

  /** A float is the decimal `n` * 10^-k for some `k` small enough to print in full. */
  ghost predicate Representable(v: real)
  {
    exists n: int, k: nat :: k <= MaxFractionDigits && IsDecimal(v, n, k)
  }

  lemma ReadBack(v: real)
    requires Representable(v)
    ensures ParseReal(RealText(v)) == Some(v)
  {
    var n: int, k: nat :| k <= MaxFractionDigits && IsDecimal(v, n, k);
    RealTextRoundTrip(v, n, k);
  }

  /** The printed numbers of an action. */
  function NumberTexts(a: ActionData): seq<string>
  {
    [RealText(a.x), RealText(a.y), RealText(a.speed), RealText(a.angle), RealText(a.power)]
  }

  /** Characters of the printed numbers with their separators. */
  const NumberChars: set<char> := {'0', '1', '2', '3', '4', '5', '6', '7', '8', '9', '-', '.', ',', ' '}

  lemma NumberTextsWithin(a: ActionData)
    ensures forall k :: 0 <= k < 5 ==> Within(NumberTexts(a)[k], Decimal)
  {
    RealTextWithinDecimal(a.x);
    RealTextWithinDecimal(a.y);
    RealTextWithinDecimal(a.speed);
    RealTextWithinDecimal(a.angle);
    RealTextWithinDecimal(a.power);
  }

  /** Printed numbers hold no comma, and neither does anything but the separators between
   *  them. */
  lemma NumbersClean(rs: seq<string>)
    requires forall k :: 0 <= k < |rs| ==> Within(rs[k], Decimal)
    ensures forall k :: 0 <= k < |rs| ==> ',' !in rs[k]
    ensures Within(", " + Join(rs, ", "), NumberChars)
  {
    forall k | 0 <= k < |rs| ensures ',' !in rs[k] && Within(rs[k], NumberChars) {
      NotWithin(rs[k], Decimal, ',');
      WithinWider(rs[k], Decimal, NumberChars);
    }
    SingleWithin(',', NumberChars);
    SingleWithin(' ', NumberChars);
    WithinConcat(",", " ", NumberChars);
    assert ", " == "," + " ";
    WithinJoin(rs, ", ", NumberChars);
    WithinConcat(", ", Join(rs, ", "), NumberChars);
  }

  /** The leading "Action: " is the only one when the id holds none. */
  lemma StripActionPrefix(id: string, rs: seq<string>)
    requires Find(id, "Action: ") == None
    requires forall k :: 0 <= k < |rs| ==> Within(rs[k], Decimal)
    ensures Replace("Action: " + (id + ", " + Join(rs, ", ")), "Action: ", "") == id + ", " + Join(rs, ", ")
  {
    ActionRestClean(id, rs);
    ReplaceLeading("Action: ", id + ", " + Join(rs, ", "));
  }

  /** The id and numbers of an action hold no "Action: ". */
  lemma ActionRestClean(id: string, rs: seq<string>)
    requires Find(id, "Action: ") == None
    requires forall k :: 0 <= k < |rs| ==> Within(rs[k], Decimal)
    ensures Find(id + ", " + Join(rs, ", "), "Action: ") == None
  {
    var tail := ", " + Join(rs, ", ");
    NumbersTailClean(rs);
    FindNoneAcross(id, tail, "Action: ");
    assert id + tail == id + ", " + Join(rs, ", ");
  }

  /** The numbers with their separators start with a comma and hold no letter "A". */
  lemma NumbersTailClean(rs: seq<string>)
    requires forall k :: 0 <= k < |rs| ==> Within(rs[k], Decimal)
    ensures var tail := ", " + Join(rs, ", ");
            tail[0] == ',' && tail[0] !in "Action: " && 'A' !in tail
  {
    var tail := ", " + Join(rs, ", ");
    NumbersClean(rs);
    assert 'A' !in NumberChars;
    NotWithin(tail, NumberChars, 'A');
    assert tail[0] == ',';
    assert ',' !in "Action: ";
  }

  /** The fields of a printed action, cut at ", ": the id pieces and the five numbers. */
  lemma SplitActionFields(ids: seq<string>, rs: seq<string>)
    requires |ids| >= 1 && |rs| >= 1
    requires forall k :: 0 <= k < |ids| ==> Find(ids[k], ", ") == None
    requires forall k :: 0 <= k < |rs| ==> Within(rs[k], Decimal)
    ensures Split(Join(ids, ", ") + ", " + Join(rs, ", "), ", ") == ids + rs
  {
    FieldsClean(ids, rs);
    JoinSplitAt(ids, rs, ", ");
  }

  /** Every field but the last is a clean part before ", ", and the last holds no comma,
   *  so cutting the joined fields at ", " gives them back. */
  lemma FieldsClean(ids: seq<string>, rs: seq<string>)
    requires |ids| >= 1 && |rs| >= 1
    requires forall k :: 0 <= k < |ids| ==> Find(ids[k], ", ") == None
    requires forall k :: 0 <= k < |rs| ==> Within(rs[k], Decimal)
    ensures Split(Join(ids + rs, ", "), ", ") == ids + rs
  {
    var fields := ids + rs;
    FieldsCleanParts(ids, rs);
    var last := rs[|rs| - 1];
    NotWithin(last, Decimal, ',');
    FindMissingHead(last, ", ");
    assert fields[|fields| - 1] == last;
    SplitJoin(fields, ", ");
  }

  lemma FieldsCleanParts(ids: seq<string>, rs: seq<string>)
    requires forall k :: 0 <= k < |ids| ==> Find(ids[k], ", ") == None
    requires forall k :: 0 <= k < |rs| ==> Within(rs[k], Decimal)
    ensures forall k :: 0 <= k < |ids + rs| - 1 ==> CleanPart((ids + rs)[k], ", ")
  {
    var fields := ids + rs;
    NumbersClean(rs);
    forall k | 0 <= k < |fields| - 1 ensures CleanPart(fields[k], ", ") {
      if k < |ids| {
        CleanPartPair(fields[k], ", ");
      } else {
        CleanPartIfHeadMissing(fields[k], ", ");
      }
    }
  }

  lemma {:induction false} JoinSplitAt(xs: seq<string>, ys: seq<string>, sep: string)
    requires |xs| >= 1 && |ys| >= 1
    ensures Join(xs + ys, sep) == Join(xs, sep) + sep + Join(ys, sep)
    decreases |xs|
  {
    if |xs| > 1 {
      JoinSplitAt(xs[1..], ys, sep);
      assert (xs + ys)[1..] == xs[1..] + ys;
    } else {
      assert (xs + ys)[1..] == ys;
    }
  }

  /** `Action.from_str(str(A))` gives back `A` when the id contains neither ", " nor
   *  "Action: " and every number prints in full. */
  lemma ActionRoundTrip(a: ActionData)
    requires Find(a.id, ", ") == None && Find(a.id, "Action: ") == None
    requires Representable(a.x) && Representable(a.y) && Representable(a.speed)
    requires Representable(a.angle) && Representable(a.power)
    ensures ActionFromText(ActionText(a)) == Some(a)
  {
    var rs := NumberTexts(a);
    assert Join([a.id] + rs, ", ") == a.id + ", " + Join(rs, ", ") by {
      JoinSplitAt([a.id], rs, ", ");
    }
    assert ActionText(a) == "Action: " + (a.id + ", " + Join(rs, ", "));
    NumberTextsWithin(a);
    StripActionPrefix(a.id, rs);
    SplitActionFields([a.id], rs);
    assert Join([a.id], ", ") == a.id;
    ReadBack(a.x);
    ReadBack(a.y);
    ReadBack(a.speed);
    ReadBack(a.angle);
    ReadBack(a.power);
  }

  /** An id containing ", " splits into one field too many, so the action cannot be read
   *  back. */
  lemma ActionIdWithSeparator(a: ActionData, head: string, tail: string)
    requires a.id == head + ", " + tail
    requires Find(head, ", ") == None && Find(tail, ", ") == None && Find(a.id, "Action: ") == None
    ensures ActionFromText(ActionText(a)) == None
  {
    var rs := NumberTexts(a);
    JoinSplitAt([a.id], rs, ", ");
    assert Join([a.id], ", ") == a.id;
    assert ActionText(a) == "Action: " + (a.id + ", " + Join(rs, ", "));
    NumberTextsWithin(a);
    StripActionPrefix(a.id, rs);
    assert Join([head, tail], ", ") == a.id;
    SplitActionFields([head, tail], rs);
  }
}
