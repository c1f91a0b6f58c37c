/** `rapid_read_handler` in place, and `string_to_json` on top of the reader. */
module JsonLoader {
  import opened Decimal
  import opened JsonValue
  import opened TreeBuilder
  import E = Events
  import RS = ReaderSpec
  import JsonReader
  import Loading
  import RoundTrip

  /** Each method returns whether it finished; `false` is a C++ exception, after which the object is dropped. */
  class ReadHandler {
    const libc: Libc
    /** `values_`: the open containers, innermost last. */
    var values: seq<Frame>
    var curKey: string
    var first: bool
    /** The result, once its frame has been popped. */
    var root: Json

    ghost function State(): State
      reads this
    {
      if values == [] then Finished(root) else Building(values, curKey, first)
    }

    constructor (libc: Libc)
      ensures this.libc == libc && State() == INITIAL && values != []
    {
      this.libc := libc;
      values, curKey, first, root := [Frame(Null, Root)], "", true, Null;
    }

    /** The outcome of a method whose event is `e`. */
    twostate predicate Stepped(e: E.Event, ok: bool)
      reads this
    {
      var st := Step(libc, old(State()), e);
      (ok <==> !st.Threw?) && (ok ==> State() == st)
    }

    method Advance(val: Json) returns (ok: bool, slot: Slot, value: Json)
      requires values != []
      modifies this
      ensures match TreeBuilder.Advance(old(values), old(curKey), val)
        case BadCast => !ok
        case Advanced(frames, s, v) => ok && values == frames && slot == s && value == v && curKey == ""
      ensures first == old(first) && root == old(root)
    {
      hide Insert, Get, Has;
      ok, slot, value := true, Root, val;
      var n := |values| - 1;
      var tip := values[n].value;
      if curKey != "" {
        if tip.Map? {
          if Has(tip.entries, curKey) { value := Get(tip.entries, curKey); }
          values := values[n := values[n].(value := Map(Insert(tip.entries, curKey, val)))];
          slot := Key(curKey);
          curKey := "";
        } else {
          ok := false;
        }
      } else if tip.List? {
        values := values[n := values[n].(value := List(tip.items + [val]))];
        slot := Nth(|tip.items|);
      } else {
        ok := false;
      }
    }

    method Deliver(val: Json) returns (ok: bool)
      requires values != []
      modifies this
      ensures var st := Scalar(old(State()), val); (ok <==> !st.Threw?) && (ok ==> State() == st)
    {
      hide Insert, Get, Has;
      var slot, value;
      ok, slot, value := Advance(val);
    }

    method BigNum(lexeme: string) returns (ok: bool)
      requires values != []
      modifies this
      ensures Stepped(E.BigNum(lexeme), ok)
      ensures '.' in lexeme || 'e' in lexeme || 'E' in lexeme ==>
        var st := Scalar(old(State()), Double(libc.scan(lexeme))); (ok <==> !st.Threw?) && (ok ==> State() == st)
      ensures forall i: int64 :: lexeme == Dec(i) ==>
        var st := Scalar(old(State()), Int(i)); (ok <==> !st.Threw?) && (ok ==> State() == st)
    {
      Loading.NumberLoads(libc, lexeme);
      hide NumberOf, Scalar, Dec;
      var v := NumberOf(libc, lexeme);
      if v.None? {
        ok := false;
      } else {
        ok := Deliver(v.value);
      }
    }

    method String(s: string) returns (ok: bool)
      requires values != []
      modifies this
      ensures Stepped(E.String(s), ok)
    {
      hide Scalar;
      if curKey == "" && values[|values| - 1].value.Map? {
        curKey := s;
        ok := true;
      } else {
        ok := Deliver(Str(s));
      }
    }

    method Start(empty: Json) returns (ok: bool)
      requires values != []
      modifies this
      ensures var st := Open(old(State()), empty); (ok <==> !st.Threw?) && (ok ==> State() == st)
    {
      hide Insert, Get, Has;
      if first {
        first := false;
        var n := |values| - 1;
        values := values[n := values[n].(value := empty)];
        ok := true;
      } else {
        var slot, value;
        ok, slot, value := Advance(empty);
        if ok { values := values + [Frame(value, slot)]; }
      }
    }

    method End()
      requires values != []
      modifies this
      ensures State() == Close(old(State()))
    {
      hide WriteBack;
      var n := |values| - 1;
      if n == 0 {
        root := values[0].value;
        values := [];
      } else {
        var child, parent := values[n], values[n - 1];
        values := values[..n - 1] + [parent.(value := WriteBack(parent.value, child.slot, child.value))];
      }
    }

    /** The call an event of the reader makes. */
    method Handle(e: E.Event) returns (ok: bool)
      modifies this
      ensures Stepped(e, ok)
    {
      hide Scalar, Open, Close, NumberOf;
      ok := false;
      if values != [] {
        match e
        case Null => ok := Deliver(Null);
        case Bool(b) => ok := Deliver(Bool(b));
        case BigNum(lexeme) => ok := BigNum(lexeme);
        case String(s) => ok := String(s);
        case StartObject => ok := Start(Map([]));
        case StartArray => ok := Start(List([]));
        case EndObject(_) => End(); ok := true; CloseOk(old(State()));
        case EndArray(_) => End(); ok := true; CloseOk(old(State()));
        case _ =>
      }
    }
  }

  lemma CloseOk(st: State)
    requires st.Building? && st.frames != []
    ensures !Close(st).Threw?
  {
  }

  lemma RunPrefix(libc: Libc, log: seq<E.Event>, i: nat)
    requires i < |log|
    ensures Run(libc, INITIAL, log[..i + 1]) == Step(libc, Run(libc, INITIAL, log[..i]), log[i])
    ensures Run(libc, INITIAL, log) == Run(libc, Run(libc, INITIAL, log[..i + 1]), log[i + 1..])
  {
    hide Step;
    assert log[..i + 1] == log[..i] + [log[i]];
    RunConcat(libc, INITIAL, log[..i], [log[i]]);
    RunOne(libc, Run(libc, INITIAL, log[..i]), log[i]);
    assert log == log[..i + 1] + log[i + 1..];
    RunConcat(libc, INITIAL, log[..i + 1], log[i + 1..]);
  }

  /** Feeds events to the handler until one throws. */
  method Replay(libc: Libc, log: seq<E.Event>) returns (ok: bool, handler: ReadHandler)
    ensures var st := Run(libc, INITIAL, log); (ok <==> !st.Threw?) && (ok ==> handler.State() == st)
  {
    hide Step, Run;
    handler := new ReadHandler(libc);
    ok := true;
    assert Run(libc, INITIAL, log[..0]) == INITIAL by { RunNone(libc, log[..0]); }
    for i := 0 to |log|
      invariant fresh(handler) && handler.libc == libc
      invariant handler.State() == Run(libc, INITIAL, log[..i]) && !Run(libc, INITIAL, log[..i]).Threw?
    {
      RunPrefix(libc, log, i);
      ok := handler.Handle(log[i]);
      if !ok {
        RunThrew(libc, log[i + 1..]);
        return;
      }
    }
    ok := true;
    assert log[..|log|] == log;
  }

  lemma RunNone(libc: Libc, log: seq<E.Event>)
    requires log == []
    ensures Run(libc, INITIAL, log) == INITIAL
  {
  }

  lemma LoadUnfold(libc: Libc, text: string)
    ensures var p := RS.ParseText(RS.Lexemes, false, text);
      var st := Run(libc, INITIAL, p.log);
      RoundTrip.StringToJson(libc, text) ==
      if st.Threw? then RoundTrip.HandlerThrew
      else if p.Err? then RoundTrip.Rejected(p.error, |text| - p.left)
      else if st.Finished? then RoundTrip.Loaded(st.root)
      else RoundTrip.Loaded(if st.frames == [] then Null else st.frames[0].value)
  {
    hide RS.ParseText, Run;
  }

  /** `string_to_json`. The handler learns nothing from later events once it has thrown, and the reader nothing
      from the handler, so its calls are replayed after the parse. */
  method StringToJson(libc: Libc, text: string) returns (r: RoundTrip.Loaded)
    ensures r == RoundTrip.StringToJson(libc, text)
  {
    LoadUnfold(libc, text);
    hide RS.ParseText, Run, RoundTrip.StringToJson;
    var reader := new JsonReader.Reader(RS.Lexemes, text);
    var fail := reader.Parse(false);
    ghost var p := RS.ParseText(RS.Lexemes, false, text);
    assert reader.log == p.log by { assert [] + p.log == p.log; }
    var log := reader.log;
    var ok, handler := Replay(libc, log);
    if !ok {
      r := RoundTrip.HandlerThrew;
    } else if fail.Some? {
      r := RoundTrip.Rejected(fail.value.error, fail.value.offset);
    } else if handler.values == [] {
      r := RoundTrip.Loaded(handler.root);
    } else {
      r := RoundTrip.Loaded(handler.values[0].value);
    }
  }
}
