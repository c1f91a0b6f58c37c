/** What `put` leaves in the storage and `get` takes out of it, character by character. */
module Effects {
  import opened Strings
  import opened Decimal
  import opened JsonValue
  import opened Render
  import opened RoundTrip
  import opened Revision
  import opened RevLog
  import opened DatabaseSpec
  import opened StoredText
  import opened Keys
  import opened Immutability
  import opened History
  import Conflict

  // ---- identifiers ----

  /** Two lower-case hexadecimal digits for each byte, the high one first. */
  predicate SpellsBytes(u: string, bytes: seq<nat>) {
    && |u| == 2 * |bytes|
    && (forall i :: 0 <= i < |u| ==> '0' <= u[i] <= '9' || 'a' <= u[i] <= 'f')
    && forall i :: 0 <= i < |bytes| ==> HexValue(u[2 * i]) * 16 + HexValue(u[2 * i + 1]) == bytes[i]
  }

  lemma ByteSpelled(b: nat)
    requires b < 256
    ensures var h := ByteHex(b); IsHexChar(h[0]) && IsHexChar(h[1]) && HexValue(h[0]) * 16 + HexValue(h[1]) == b
  {
    AlphabetValue(b / 16);
    AlphabetValue(b % 16);
  }

  lemma {:induction false} HexOfSpells(bytes: seq<nat>)
    requires forall i :: 0 <= i < |bytes| ==> bytes[i] < 256
    ensures SpellsBytes(HexOf(bytes), bytes)
    decreases |bytes|
  {
    hide ByteHex, HexValue;
    if bytes != [] {
      var n := |bytes| - 1;
      HexOfSpells(bytes[..n]);
      ByteSpelled(bytes[n]);
      var u, front := HexOf(bytes), HexOf(bytes[..n]);
      assert u[2 * n] == ByteHex(bytes[n])[0] && u[2 * n + 1] == ByteHex(bytes[n])[1];
      forall i | 0 <= i < n ensures u[2 * i] == front[2 * i] && u[2 * i + 1] == front[2 * i + 1] && bytes[..n][i] == bytes[i] {}
    }
  }

  // ---- texts ----

  /** A stored document: not deleted, the parent's string, no attachments, the content. */
  lemma BodySpelled(env: Env, prev: Rev, content: Json)
    ensures BodyText(env, prev, content) ==
      "[false,\"" + Escaped(prev.text) + "\",null," + Text(env.libc, Compact, 1, content) + "]"
  {
    var xs := [Bool(false), Str(prev.text), Null, content];
    var libc, t := env.libc, Text(env.libc, Compact, 1, content);
    assert ItemsText(libc, Compact, 1, xs, 4) == "";
    assert ItemsText(libc, Compact, 1, xs, 3) == "," + t + "";
    assert ItemsText(libc, Compact, 1, xs, 2) == "," + "null" + ("," + t + "");
    assert ItemsText(libc, Compact, 1, xs, 1) == "," + Quoted(prev.text) + ("," + "null" + ("," + t + ""));
    assert ItemsText(libc, Compact, 1, xs, 0) == "" + "false" + ("," + Quoted(prev.text) + ("," + "null" + ("," + t + "")));
    hide Text, ItemsText, Escaped;
    Spliced(Escaped(prev.text), t);
    BodyIsList(env, prev, content);
  }

  lemma Spliced(p: string, t: string)
    ensures "[" + ("" + "false" + ("," + ("\"" + p + "\"") + ("," + "null" + ("," + t + "")))) + "" + "]"
      == "[false,\"" + p + "\",null," + t + "]"
  {
  }

  lemma BodyIsList(env: Env, prev: Rev, content: Json)
    ensures BodyText(env, prev, content) ==
      "[" + ItemsText(env.libc, Compact, 1, [Bool(false), Str(prev.text), Null, content], 0) + "" + "]"
  {
    hide ItemsText;
  }

  function FlagSpelled(b: bool): string { if b then "true" else "false" }

  /** Strings in quotes, with commas between them. */
  function StringsSpelled(ss: seq<string>): string
    decreases |ss|
  {
    if ss == [] then "" else "\"" + Escaped(ss[0]) + "\"" + (if |ss| == 1 then "" else ",") + StringsSpelled(ss[1..])
  }

  function QuadSpelled(q: Quad): string {
    "[" + Dec(q.num) + ",\"" + Escaped(q.uniq) + "\"," + FlagSpelled(q.available) + "," + FlagSpelled(q.deleted) + "]"
  }

  function QuadsSpelled(qs: seq<Quad>): string
    decreases |qs|
  {
    if qs == [] then "" else "," + QuadSpelled(qs[0]) + QuadsSpelled(qs[1..])
  }

  /** A stored log: the conflicts, an empty list, and the entries. */
  function LogSpelled(l: Log): string {
    "[[" + StringsSpelled(l.conflicts) + "],[]" + QuadsSpelled(l.quads) + "]"
  }

  lemma {:induction false} StringItems(libc: Libc, ss: seq<string>, i: nat)
    requires i <= |ss|
    ensures ItemsText(libc, Compact, 2, Strs(ss), i) == (if 0 < i < |ss| then "," else "") + StringsSpelled(ss[i..])
    decreases |ss| - i
  {
    if i < |ss| {
      StringItem(libc, ss, i);
      StringItems(libc, ss, i + 1);
      assert ss[i..][1..] == ss[i + 1..];
      var t, rest := "\"" + Escaped(ss[i]) + "\"", StringsSpelled(ss[i + 1..]);
      assert StringsSpelled(ss[i..]) == t + (if i + 1 == |ss| then "" else ",") + rest;
      hide Escaped, StringsSpelled, ItemsText;
      StringSpliced(if i == 0 then "" else ",", t, if i + 1 == |ss| then "" else ",", rest);
    }
  }

  lemma StringItem(libc: Libc, ss: seq<string>, i: nat)
    requires i < |ss|
    ensures ItemsText(libc, Compact, 2, Strs(ss), i) ==
      (if i == 0 then "" else ",") + ("\"" + Escaped(ss[i]) + "\"") + ItemsText(libc, Compact, 2, Strs(ss), i + 1)
  {
    hide Escaped;
  }

  lemma StringSpliced(a: string, t: string, c: string, rest: string)
    ensures a + t + (c + rest) == a + (t + c + rest)
  {
  }

  lemma QuadItem(libc: Libc, q: Quad)
    ensures Text(libc, Compact, 1, QuadJson(q)) == QuadSpelled(q)
  {
    var xs := QuadJson(q).items;
    var n, u, a, d := Dec(q.num), Escaped(q.uniq), FlagSpelled(q.available), FlagSpelled(q.deleted);
    assert ItemsText(libc, Compact, 2, xs, 4) == "";
    assert ItemsText(libc, Compact, 2, xs, 3) == "," + d + "";
    assert ItemsText(libc, Compact, 2, xs, 2) == "," + a + ("," + d + "");
    assert ItemsText(libc, Compact, 2, xs, 1) == "," + Quoted(q.uniq) + ("," + a + ("," + d + ""));
    assert ItemsText(libc, Compact, 2, xs, 0) == "" + n + ("," + Quoted(q.uniq) + ("," + a + ("," + d + "")));
    QuadIsList(libc, q);
    hide Text, ItemsText, Escaped, Dec;
    FourSpliced(n, u, a, d);
  }

  lemma FourSpliced(n: string, u: string, a: string, d: string)
    ensures "[" + ("" + n + ("," + ("\"" + u + "\"") + ("," + a + ("," + d + "")))) + "" + "]"
      == "[" + n + ",\"" + u + "\"," + a + "," + d + "]"
  {
  }

  lemma QuadIsList(libc: Libc, q: Quad)
    ensures Text(libc, Compact, 1, QuadJson(q)) == "[" + ItemsText(libc, Compact, 2, QuadJson(q).items, 0) + "" + "]"
  {
    hide ItemsText;
  }

  lemma {:induction false} QuadItems(libc: Libc, js: seq<Json>, qs: seq<Quad>, i: nat)
    requires i <= |qs| && |js| == |qs| + 2 && forall k :: 0 <= k < |qs| ==> js[k + 2] == QuadJson(qs[k])
    ensures ItemsText(libc, Compact, 1, js, i + 2) == QuadsSpelled(qs[i..])
    decreases |qs| - i
  {
    hide Text, QuadSpelled;
    if i < |qs| {
      QuadItems(libc, js, qs, i + 1);
      QuadItem(libc, qs[i]);
      assert qs[i..][1..] == qs[i + 1..];
      hide QuadJson;
    }
  }

  lemma LogParts(l: Log)
    ensures var js := ToJson(l).items;
      |js| == |l.quads| + 2 && js[0] == List(Strs(l.conflicts)) && js[1] == List([]) &&
      forall k :: 0 <= k < |l.quads| ==> js[k + 2] == QuadJson(l.quads[k])
  {
    hide Strs, QuadJson;
  }

  lemma LogItems(libc: Libc, l: Log)
    ensures ItemsText(libc, Compact, 1, ToJson(l).items, 0) ==
      "" + ("[" + StringsSpelled(l.conflicts) + "" + "]") + ("," + "[]" + QuadsSpelled(l.quads))
  {
    LogParts(l);
    LogIsList(l);
    hide *;
    var js := ToJson(l).items;
    StringItems(libc, l.conflicts, 0);
    assert l.conflicts[0..] == l.conflicts && l.quads[0..] == l.quads;
    QuadItems(libc, js, l.quads, 0);
    StringsList(libc, l.conflicts);
    EmptyListText(libc);
    TwoItems(libc, js);
    assert "" + StringsSpelled(l.conflicts) == StringsSpelled(l.conflicts);
  }

  lemma StringsList(libc: Libc, ss: seq<string>)
    ensures Text(libc, Compact, 1, List(Strs(ss))) == "[" + ItemsText(libc, Compact, 2, Strs(ss), 0) + "" + "]"
  {
    hide ItemsText, Strs;
  }

  lemma TwoItems(libc: Libc, js: seq<Json>)
    requires |js| >= 2 && js[0].List? && js[1].List?
    ensures ItemsText(libc, Compact, 1, js, 0) ==
      "" + Text(libc, Compact, 1, js[0]) + ("," + Text(libc, Compact, 1, js[1]) + ItemsText(libc, Compact, 1, js, 2))
  {
    hide Text;
  }

  lemma LogIsSpelled(env: Env, l: Log)
    ensures LogText(env, l) == LogSpelled(l)
  {
    LogItems(env.libc, l);
    LogTextOf(env, l);
    hide ItemsText, LogText, StringsSpelled, QuadsSpelled;
    LogSpliced(StringsSpelled(l.conflicts), QuadsSpelled(l.quads));
  }

  lemma LogSpliced(c: string, q: string)
    ensures "[" + ("" + ("[" + c + "" + "]") + ("," + "[]" + q)) + "" + "]" == "[[" + c + "],[]" + q + "]"
  {
  }

  lemma EmptyListText(libc: Libc)
    ensures Text(libc, Compact, 1, List([])) == "[]"
  {
  }

  lemma LogTextOf(env: Env, l: Log)
    ensures LogText(env, l) == "[" + ItemsText(env.libc, Compact, 1, ToJson(l).items, 0) + "" + "]"
  {
    hide ItemsText;
  }

  // ---- put ----

  /** The key of a log and, with a revision's string behind it, of a document. */
  function KeySpelled(db: string, id: string): string {
    "_data/" + [0 as char] + db + "!" + [0 as char] + id + "@"
  }

  lemma PathIsSpelled(db: string, id: string)
    ensures MakePath(db, id) == KeySpelled(db, id)
  {
    assert "_data/\0" == "_data/" + [0 as char] && "!\0" == "!" + [0 as char];
  }

  /** The number as a signed one of 32 bits. */
  lemma RevSpelled(num: uint32, uniq: string)
    ensures MakeRev(num, uniq).text ==
      (if num < 0x8000_0000 then Digits(num) else "-" + Digits(0x1_0000_0000 - num)) + "-" + uniq
  {
  }

  /** What a successful call returns and has stored: the parent's number plus one, the digest of the stored text
      in hexadecimal, and under the key made of both that text. */
  lemma PutStores(env: Env, store: Store, op: Op)
    requires var outcome := Apply(env, store, op).1; outcome.Done? && outcome.result.code.UpdateOk?
    ensures var (after, outcome) := Apply(env, store, op);
      var r := outcome.result.newRev;
      var key := KeySpelled(op.db, op.id) + r.text;
      && r.num == op.prev.num + 1 && r.text == MakeRev(r.num, r.uniq).text
      && key in after
      && after[key] == "[false,\"" + Escaped(op.prev.text) + "\",null," + Text(env.libc, Compact, 1, op.content) + "]"
      && SpellsBytes(r.uniq, env.md5(after[key]))
  {
    SuccessStores(env, store, op);
    NewNumber(env, op);
    NewRevIsPlain(env, op);
    BodySpelled(env, op.prev, op.content);
    HexOfSpells(env.md5(NewBody(env, op)));
    PathIsSpelled(op.db, op.id);
    NewUniq(env, op);
    hide Apply, Text, Escaped, HexOf, KeySpelled, MakePath, NewRev, MakeRev, SpellsBytes;
  }

  lemma NewUniq(env: Env, op: Op)
    ensures NewRev(env, op).uniq == HexOf(env.md5(NewBody(env, op)))
  {
    hide HexOf, BodyText;
  }

  /** And the log it has stored: on a document without one, the parent, if there is any, as a missing revision and
      then the new one. */
  lemma FirstPutLog(env: Env, store: Store, op: Op)
    requires KeySpelled(op.db, op.id) !in store
    requires var outcome := Apply(env, store, op).1; outcome.Done? && outcome.result.code.UpdateOk?
    ensures var (after, outcome) := Apply(env, store, op);
      var r, path := outcome.result.newRev, KeySpelled(op.db, op.id);
      var before := if op.prev.num == 0 then [] else [Quad(op.prev.num, op.prev.uniq, false, false)];
      path in after && after[path] == LogSpelled(Log([], before + [Quad(r.num, r.uniq, true, false)]))
  {
    PathIsSpelled(op.db, op.id);
    FirstCall(env, store, op);
    var r := NewRev(env, op);
    var m := Extended(Log([], []), false, op.prev, r);
    var before := if op.prev.num == 0 then [] else [Quad(op.prev.num, op.prev.uniq, false, false)];
    assert m == Log([], before + [Quad(r.num, r.uniq, true, false)]);
    LogIsSpelled(env, m);
    hide Apply, LogSpelled, LogText, KeySpelled, MakePath, NewRev, ToJson;
  }

  /** On a document with a log: under the same number and identifier as the last entry's, one more entry; under
      others, when merging, the merged log; otherwise the call is rejected. */
  lemma NextPutLog(env: Env, store: Store, op: Op, l: Log)
    requires l.quads != [] && KeySpelled(op.db, op.id) in store && store[KeySpelled(op.db, op.id)] == LogSpelled(l)
    ensures var (after, outcome) := Apply(env, store, op);
      var last, path := l.quads[|l.quads| - 1], KeySpelled(op.db, op.id);
      var done := outcome.Done? && outcome.result.code.UpdateOk?;
      var r := NewRev(env, op);
      if op.prev.num == last.num && op.prev.uniq == last.uniq then
        done ==> path in after && after[path] == LogSpelled(Log(l.conflicts, l.quads + [Quad(r.num, r.uniq, true, false)]))
      else if op.doMerge then
        done ==> Conflict.MergeLog(l, r, []).Merged? && path in after && after[path] == LogSpelled(Conflict.MergeLog(l, r, []).log)
      else
        after == store && outcome == Done(PutResult(UpdateConflict, EMPTY, ToJson(l)))
  {
    PathIsSpelled(op.db, op.id);
    LogIsSpelled(env, l);
    NextCall(env, store, op, l);
    var r := NewRev(env, op);
    LogIsSpelled(env, Log(l.conflicts, l.quads + [Quad(r.num, r.uniq, true, false)]));
    if Conflict.MergeLog(l, r, []).Merged? { LogIsSpelled(env, Conflict.MergeLog(l, r, []).log); }
    hide Apply, LogSpelled, LogText, KeySpelled, MakePath, NewRev, ToJson, Conflict.MergeLog;
  }

  lemma NextCall(env: Env, store: Store, op: Op, l: Log)
    requires HasLog(env, store, op.db, op.id, l)
    ensures var (after, outcome) := Apply(env, store, op);
      var last, path, r := l.quads[|l.quads| - 1], MakePath(op.db, op.id), NewRev(env, op);
      var merged := Conflict.MergeLog(l, r, []);
      var done := outcome.Done? && outcome.result.code.UpdateOk?;
      if op.prev.num == last.num && op.prev.uniq == last.uniq then
        done ==> path in after && after[path] == LogText(env, Log(l.conflicts, l.quads + [Quad(r.num, r.uniq, true, false)]))
      else if op.doMerge then
        done ==> merged.Merged? && path in after && after[path] == LogText(env, merged.log)
      else
        after == store && outcome == Done(PutResult(UpdateConflict, EMPTY, ToJson(l)))
  {
    hide Apply, MakePath, BodyText, ComputeRevision, LogText, Write, ToJson, Conflict.MergeLog;
    var path := MakePath(op.db, op.id);
    PutOnLog(env, store, op, l);
    WriteExtends(env, store, path, l, true, op.prev, op.content);
    WriteMerges(env, store, path, l, op.prev, op.content);
  }

  /** The last item of a log as the test for a conflict needs it: a list with a number, and, when that number is the
      parent's, an identifier. */
  predicate Testable(log: Json, prev: Rev) {
    && log.List? && log.items != [] && log.items[|log.items| - 1].List?
    && var quad := log.items[|log.items| - 1].items;
    |quad| >= 1 && quad[0].Int? && (quad[0].i == prev.num ==> |quad| >= 2 && quad[1].Str?)
  }

  /** Whenever the test for a conflict lets a call through, on any storage whatever, its document is stored; with it
      exactly the log that is returned, or, when the call stops or throws, nothing else. */
  lemma PutChanges(env: Env, store: Store, op: Op)
    requires var path := KeySpelled(op.db, op.id);
      path in store ==>
        var loaded := StringToJson(env.libc, store[path]);
        loaded.Loaded? && Testable(loaded.v, op.prev) && (op.doMerge || NamesTop(loaded.v, op.prev))
    ensures var (after, outcome) := Apply(env, store, op);
      var path, key := KeySpelled(op.db, op.id), KeySpelled(op.db, op.id) + NewRev(env, op).text;
      var stored := store[key := NewBody(env, op)];
      if outcome.Done? then
        outcome.result.code.UpdateOk? && outcome.result.newRev == NewRev(env, op) &&
        after == stored[path := Text(env.libc, Compact, 0, outcome.result.log)]
      else after == stored
  {
    PathIsSpelled(op.db, op.id);
    var path := KeySpelled(op.db, op.id);
    if path in store {
      var log := StringToJson(env.libc, store[path]).v;
      TestedTop(log, op.prev);
      hide StringToJson, MakePath, KeySpelled, Write, Testable, NamesTop, NewRev, NewBody, Text, TopQuad, TopDiffers;
      WriteChanges(env, store, op, log, true, !NamesTop(log, op.prev));
    } else {
      hide StringToJson, MakePath, KeySpelled, Write, NewRev, NewBody, Text;
      WriteChanges(env, store, op, EMPTY_LOG, false, false);
    }
  }

  /** The last item has the number and the identifier of the parent. */
  predicate NamesTop(log: Json, prev: Rev)
    requires Testable(log, prev)
  {
    var quad := log.items[|log.items| - 1].items;
    quad[0].i == prev.num && quad[1].s == prev.uniq
  }

  lemma TestedTop(log: Json, prev: Rev)
    requires Testable(log, prev)
    ensures log.List? && TopQuad(log).Some? && TopDiffers(TopQuad(log).value, prev) == Some(!NamesTop(log, prev))
  {
  }

  lemma WriteChanges(env: Env, store: Store, op: Op, log: Json, hasPrev: bool, needToMerge: bool)
    requires log.List?
    ensures var (after, outcome) := Write(env, store, MakePath(op.db, op.id), log, hasPrev, needToMerge, op.prev, op.content);
      var stored := store[MakePath(op.db, op.id) + NewRev(env, op).text := NewBody(env, op)];
      if outcome.Done? then
        outcome.result.code.UpdateOk? && outcome.result.newRev == NewRev(env, op) &&
        after == stored[MakePath(op.db, op.id) := Text(env.libc, Compact, 0, outcome.result.log)]
      else after == stored
  {
    hide MakePath, BodyText, ComputeRevision, Text, Conflict.MergeJson;
  }

  /** On any other stored log, and on a text that does not load, a call throws and changes nothing. */
  lemma PutThrows(env: Env, store: Store, op: Op)
    requires KeySpelled(op.db, op.id) in store
    requires var loaded := StringToJson(env.libc, store[KeySpelled(op.db, op.id)]);
      !loaded.Loaded? || !Testable(loaded.v, op.prev)
    ensures Apply(env, store, op) == (store, Exception)
  {
    PathIsSpelled(op.db, op.id);
    hide StringToJson, MakePath, KeySpelled, Write;
  }

  // ---- get ----

  /** A query under a revision, whatever is stored: nothing under its key; a text that is no list; or a list, whose
      first item says whether it is deleted, whose second is the parent's string and whose fourth is the content. */
  lemma GetParts(env: Env, store: Store, db: string, id: string, rev: Rev, wantContent: bool, wantRev: bool)
    requires wantContent || wantRev
    ensures var got := Get(env, store, db, id, Some(rev), wantContent, wantRev, false);
      var key := KeySpelled(db, id) + rev.text;
      if key !in store then got == Got(false, None, None, None)
      else
        match StringToJson(env.libc, store[key])
        case Loaded(List(lst)) =>
          var readable := (wantContent ==> |lst| >= 4) &&
            (wantRev ==> |lst| >= 2 && lst[0].Bool? && lst[1].Str? && ParseRev(lst[1].s).Some?);
          got == if !readable then GetThrew else
            Got(true, if wantContent then Some(lst[3]) else None,
              if wantRev then Some(RevInfo(id, lst[0].b, ParseRev(lst[1].s).value, rev)) else None, None)
        case _ => got == GetThrew
  {
    PathIsSpelled(db, id);
    hide StringToJson, ParseRev, MakePath, KeySpelled;
  }

  /** The number and identifier at the front of a list's last item, as a revision. */
  function LastRev(log: Json): Option<Rev> {
    if log.List? && log.items != [] && log.items[|log.items| - 1].List? then
      var quad := log.items[|log.items| - 1].items;
      if |quad| >= 2 && quad[0].Int? && quad[1].Str? then Some(MakeRev(quad[0].i % 0x1_0000_0000, quad[1].s)) else None
    else None
  }

  /** A query that looks at the log first, whatever is stored. Without a revision it takes the one in the log's last
      item; when the log itself is wanted with another part, it has been moved away by then, so that a list has no
      last item and nothing else has one either. */
  lemma GetByLog(env: Env, store: Store, db: string, id: string, num: Option<Rev>, wantContent: bool, wantRev: bool, wantLog: bool)
    requires wantContent || wantRev || wantLog
    requires num == None || wantLog
    ensures var got := Get(env, store, db, id, num, wantContent, wantRev, wantLog);
      var path := KeySpelled(db, id);
      if path !in store then got == Got(false, None, None, None)
      else
        match StringToJson(env.libc, store[path])
        case Loaded(log) =>
          if !wantContent && !wantRev then got == Got(true, None, None, Some(log))
          else if num.Some? then
            var plain := Get(env, store, db, id, num, wantContent, wantRev, false);
            got == if plain.Got? then plain.(log := Some(log)) else plain
          else if wantLog then got == if log.List? then GetUndefined else GetThrew
          else if log == List([]) then got == GetUndefined
          else if LastRev(log) == None then got == GetThrew
          else got == Get(env, store, db, id, LastRev(log), wantContent, wantRev, false)
        case _ => got == GetThrew
  {
    PathIsSpelled(db, id);
    if KeySpelled(db, id) in store && StringToJson(env.libc, store[KeySpelled(db, id)]).Loaded? {
      LastIsTop(StringToJson(env.libc, store[KeySpelled(db, id)]).v);
    }
    hide StringToJson, ParseRev, MakePath, KeySpelled, DocKey, LastRev, MakeRev;
  }

  lemma LastIsTop(log: Json)
    ensures TopRev(log) == LastRev(log)
    ensures MovedFrom(log) == List([]) <==> log.List?
    ensures !log.List? ==> TopRev(MovedFrom(log)) == None
  {
    hide MakeRev;
  }
}
