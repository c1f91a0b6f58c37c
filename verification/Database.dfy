/** `Database` over a key-value storage, statement by statement. */
module Database {
  import opened Strings
  import opened JsonValue
  import opened Render
  import opened RoundTrip
  import opened JsonWriter
  import opened Revision
  import opened RevLog
  import opened DatabaseSpec
  import JsonLoader
  import Conflict

  /** `storage_t`, without snapshots. */
  class Storage {
    var store: Store

    constructor ()
      ensures store == map[]
    {
      store := map[];
    }

    method TryGet(key: string) returns (val: Option<string>)
      ensures val == if key in store then Some(store[key]) else None
    {
      val := if key in store then Some(store[key]) else None;
    }

    method Put(key: string, val: string)
      modifies this
      ensures store == old(store)[key := val]
    {
      store := store[key := val];
    }
  }

  /** The text of a stored document, piece by piece. */
  lemma BodyPieces(libc: Libc, prev: Rev, content: Json)
    ensures Text(libc, Compact, 0, BodyJson(prev, content))
      == "[" + "false" + "," + Quoted(prev.text) + "," + "null" + "," + Text(libc, Compact, 1, content) + "]"
  {
    var xs := [Bool(false), Str(prev.text), Null, content];
    ScalarTexts(libc, prev);
    hide Text, Quoted;
    BodyItems(libc, xs, "false", Quoted(prev.text), "null", Text(libc, Compact, 1, content));
    ListText(libc, Compact, 0, xs, "");
    hide ItemsText;
    var items := ItemsText(libc, Compact, 1, xs, 0);
    assert "" + "[" + items + "" + "]" == "[" + items + "]";
    assert "" + Text(libc, Compact, 0, List(xs)) == Text(libc, Compact, 0, List(xs));
    Bracketed("false", Quoted(prev.text), "null", Text(libc, Compact, 1, content));
  }

  lemma ScalarTexts(libc: Libc, prev: Rev)
    ensures Text(libc, Compact, 1, Bool(false)) == "false" && Text(libc, Compact, 1, Null) == "null"
    ensures Text(libc, Compact, 1, Str(prev.text)) == Quoted(prev.text)
  {
  }

  lemma Bracketed(a: string, b: string, c: string, d: string)
    ensures "[" + (a + "," + b + "," + c + "," + d) + "]" == "[" + a + "," + b + "," + c + "," + d + "]"
  {
  }

  lemma BodyItems(libc: Libc, xs: seq<Json>, a: string, b: string, c: string, d: string)
    requires |xs| == 4
    requires Text(libc, Compact, 1, xs[0]) == a && Text(libc, Compact, 1, xs[1]) == b
    requires Text(libc, Compact, 1, xs[2]) == c && Text(libc, Compact, 1, xs[3]) == d
    ensures ItemsText(libc, Compact, 1, xs, 0) == a + "," + b + "," + c + "," + d
  {
    hide Text, Ungraft;
    assert ItemsText(libc, Compact, 1, xs, 4) == "";
    assert ItemsText(libc, Compact, 1, xs, 3) == "," + d;
    assert ItemsText(libc, Compact, 1, xs, 2) == "," + c + "," + d;
    assert ItemsText(libc, Compact, 1, xs, 1) == "," + b + "," + c + "," + d;
  }

  lemma BodyUnfold(env: Env, prev: Rev, content: Json)
    ensures BodyText(env, prev, content) == Text(env.libc, Compact, 0, BodyJson(prev, content))
  {
  }

  /** The compact writer inside a list of `n` values so far. */
  lemma InList(n: nat, kind: Kind, big: bool)
    ensures var levels := [Level(true, n)];
      Accepts(levels, kind) && WantsValue(levels) && Bumped(levels) == [Level(true, n + 1)] &&
        Lead(Compact, levels, big) == if n == 0 then "" else ","
  {
  }

  lemma AtTop()
    ensures Accepts([], ContainerKind) && Bumped([]) == [] && Lead(Compact, [], false) == "" &&
      forall empty :: Closing(Compact, 0, empty) == ""
  {
  }

  lemma EmptyMiddle(a: string, b: string)
    ensures a + "" + b == a + b && "" + b == b
  {
  }

  lemma HexOfSnoc(bytes: seq<nat>, n: nat)
    requires n < |bytes| && forall i :: 0 <= i < |bytes| ==> bytes[i] < 256
    ensures HexOf(bytes[..0]) == "" && HexOf(bytes[..n + 1]) == HexOf(bytes[..n]) + ByteHex(bytes[n])
  {
    assert bytes[..n + 1][..n] == bytes[..n];
  }

  class Database {
    const env: Env
    const name: string
    var closed: bool

    constructor (env: Env, name: string)
      ensures this.env == env && this.name == name && !closed
    {
      this.env := env;
      this.name := name;
      closed := false;
    }

    /** `make_path`. */
    method MakeDocPath(id: string) returns (res: string)
      ensures res == MakePath(name, id)
    {
      res := "";
      res := res + "_data/" + "\0";
      res := res + name;
      res := res + "!" + "\0";
      res := res + id;
      res := res + "@";
      assert "_data/" + "\0" == "_data/\0" && "!" + "\0" == "!\0";
      assert res == "_data/\0" + name + "!\0" + id + "@";
    }

    /** `compute_revision`: the digest spelled out into a string of fixed length. */
    method NextRevision(prev: Rev, body: string) returns (rev: Rev)
      ensures rev == ComputeRevision(env, prev, body)
    {
      hide HexOf, MakeRev;
      var res := env.md5(body);
      var str := new char[2 * 16];
      assert HexOf(res[..0]) == "" by { HexOfSnoc(res, 0); }
      for f := 0 to 16
        invariant str[..2 * f] == HexOf(res[..f])
      {
        HexOfSnoc(res, f);
        str[2 * f] := ALPHABET[res[f] / 16];
        str[2 * f + 1] := ALPHABET[res[f] % 16];
        assert str[..2 * (f + 1)] == str[..2 * f] + [str[2 * f], str[2 * f + 1]];
      }
      assert res[..16] == res && str[..32] == str[..];
      rev := MakeRev((prev.num + 1) % 0x1_0000_0000, str[..]);
    }

    /** The part of `store_data` that formats the document: deleted, previous revision, attachments, content. */
    method FormatBody(prev: Rev, content: Json) returns (body: string)
      ensures body == BodyText(env, prev, content)
    {
      AtTop();
      InList(0, OtherKind, false);
      InList(1, StringKind, false);
      InList(2, OtherKind, false);
      InList(3, OtherKind, Ungraft(content).Big?);
      BodyPieces(env.libc, prev, content);
      BodyUnfold(env, prev, content);
      hide *;
      var w := new Writer(env.libc, Compact);
      w.StartArray();
      EmptyMiddle("", "[");
      assert w.out == "[";
      w.Bool(false);
      EmptyMiddle("[", "false");
      assert w.out == "[" + "false";
      w.String(prev.text);
      w.Null();
      Print(w, content);
      ghost var before := w.out;
      w.EndArray();
      EmptyMiddle(before, "]");
      body := w.out;
    }

    /** `store_data`: writes the document and says which revision it got. */
    method StoreData(storage: Storage, path: string, prev: Rev, content: Json) returns (rev: Rev)
      modifies storage
      ensures rev == ComputeRevision(env, prev, BodyText(env, prev, content))
      ensures storage.store == old(storage.store)[path + rev.text := BodyText(env, prev, content)]
    {
      hide ComputeRevision, BodyText;
      var body := FormatBody(prev, content);
      rev := NextRevision(prev, body);
      storage.Put(path + rev.text, body);
    }

    /** `get_revlog`: the log of a document, a new one if there is none, or nothing if it cannot be read. */
    method GetRevlog(storage: Storage, path: string) returns (hasPrev: bool, log: Option<Json>)
      ensures hasPrev == (path in storage.store)
      ensures log ==
        if path !in storage.store then Some(EMPTY_LOG)
        else match StringToJson(env.libc, storage.store[path]) case Loaded(v) => Some(v) case _ => None
    {
      hide StringToJson;
      var text := storage.TryGet(path);
      if text.Some? {
        var loaded := JsonLoader.StringToJson(env.libc, text.value);
        return true, match loaded case Loaded(v) => Some(v) case _ => None;
      }
      return false, Some(EMPTY_LOG);
    }

    /** `put`. */
    method Put(storage: Storage, id: string, prev: Rev, content: Json, doMerge: bool) returns (outcome: Outcome)
      modifies storage
      ensures (storage.store, outcome) ==
        if closed then (old(storage.store), Exception)
        else DatabaseSpec.Put(env, old(storage.store), name, id, prev, content, doMerge)
    {
      hide StringToJson, MakePath, TopQuad, TopDiffers, Write, BodyText, ComputeRevision;
      if closed { return Exception; }
      var path := MakeDocPath(id);
      var hasPrev, revlog := GetRevlog(storage, path);
      if revlog.None? { return Exception; }
      var log := revlog.value;
      var needToMerge := false;
      if hasPrev {
        var quad := TopQuad(log);
        if quad.None? { return Exception; }
        var differs := TopDiffers(quad.value, prev);
        if differs.None? { return Exception; }
        if differs.value {
          if !doMerge { return Done(PutResult(UpdateConflict, EMPTY, log)); }
          needToMerge := true;
        }
        HasTop(log);
      }
      outcome := Update(storage, path, log, hasPrev, needToMerge, prev, content);
    }

    lemma HasTop(log: Json)
      requires TopQuad(log).Some?
      ensures log.List?
    {
    }

    /** The second half of `put`: the document, then the log. */
    method Update(storage: Storage, path: string, log: Json, hasPrev: bool,
      needToMerge: bool, prev: Rev, content: Json) returns (outcome: Outcome)
      requires log.List?
      modifies storage
      ensures (storage.store, outcome) == Write(env, old(storage.store), path, log, hasPrev, needToMerge, prev, content)
    {
      hide BodyText, ComputeRevision, Text, Conflict.MergeJson;
      var rev := StoreData(storage, path, prev, content);
      if rev.Empty() { return AssertFailure; }
      var newLog := log;
      if !needToMerge {
        if !prev.Empty() && !hasPrev {
          newLog := AddRevInfo(newLog, prev, false, false);
        }
        newLog := AddRevInfo(newLog, rev, true, false);
      } else {
        var resolver := new Conflict.Resolver(log);
        var merged := resolver.Merge(rev, []);
        if merged.Thrown? { return Exception; }
        if merged.AssertFailed? { return AssertFailure; }
        newLog := resolver.revLog;
        MergedIsList(log, rev, []);
      }
      var text := JsonWriter.JsonToString(env.libc, "", newLog, false);
      ghost var plain := Text(env.libc, Compact, 0, newLog);
      assert "" + plain == plain;
      storage.Put(path, text);
      outcome := Done(PutResult(UpdateOk, rev, newLog));
    }

    lemma MergedIsList(log: Json, rev: Rev, news: seq<Json>)
      ensures Conflict.MergeJson(log, rev, news).Merged? ==> Conflict.MergeJson(log, rev, news).log.List?
    {
      hide Conflict.Adjoin, Conflict.AddMissing, TopRev, GetStrs, Wins;
    }

    /** `get`, with its early returns. */
    method Get(storage: Storage, id: string, num: Option<Rev>, wantContent: bool, wantRev: bool, wantLog: bool) returns (got: Got)
      requires wantContent || wantRev || wantLog
      ensures got == DatabaseSpec.Get(env, storage.store, name, id, num, wantContent, wantRev, wantLog)
    {
      hide StringToJson, MakePath, TopRev, ParseRev;
      var path := MakeDocPath(id);
      var rev: Rev;
      var asked: Option<Json> := None;
      if num.None? || wantLog {
        var text := storage.TryGet(path);
        if text.None? { return Got(false, None, None, None); }
        var loaded := JsonLoader.StringToJson(env.libc, text.value);
        if !loaded.Loaded? { return GetThrew; }
        var log := loaded.v;
        if wantLog {
          asked := Some(log);
          log := MovedFrom(log);
        }
        if !wantContent && !wantRev { return Got(true, None, None, asked); }
        if num.None? {
          if log == List([]) { return GetUndefined; }
          var top := TopRev(log);
          if top.None? { return GetThrew; }
          rev := top.value;
        } else {
          rev := num.value;
        }
      } else {
        rev := num.value;
      }
      var val := storage.TryGet(path + rev.text);
      if val.None? { return Got(false, None, None, asked); }
      var serialized := JsonLoader.StringToJson(env.libc, val.value);
      if !serialized.Loaded? || !serialized.v.List? { return GetThrew; }
      var lst := serialized.v.items;
      var content: Option<Json> := None;
      if wantContent {
        if |lst| < 4 { return GetThrew; }
        content := Some(lst[3]);
      }
      var info: Option<RevInfo> := None;
      if wantRev {
        if |lst| < 2 || !lst[0].Bool? || !lst[1].Str? { return GetThrew; }
        var previous := ParseRev(lst[1].s);
        if previous.None? { return GetThrew; }
        info := Some(RevInfo(id, lst[0].b, previous.value, rev));
      }
      got := Got(true, content, info, asked);
    }
  }
}
