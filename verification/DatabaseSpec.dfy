/** What `Database::put` and `Database::get` do to a key-value store. */
module DatabaseSpec {
  import opened Strings
  import opened JsonValue
  import opened Render
  import opened RoundTrip
  import opened Revision
  import opened RevLog
  import opened Conflict

  /** An MD5 digest. */
  type Digest = d: seq<nat> | |d| == 16 && forall i :: 0 <= i < 16 ==> d[i] < 256
    witness [0, 0, 0, 0, 0, 0, 0, 0, 0, 0, 0, 0, 0, 0, 0, 0]

  /** What the program gets from foreign libraries. Nothing is assumed of the digest. */
  datatype Env = Env(libc: Libc, md5: string -> Digest)

  type Store = map<string, string>

  // ---- keys ----

  /** `make_path`: both `sizeof`s count a terminating '\0' into the key. */
  function MakePath(db: string, id: string): string {
    "_data/\0" + db + "!\0" + id + "@"
  }

  /** The key of a stored document. */
  function DocKey(db: string, id: string, rev: Rev): string {
    MakePath(db, id) + rev.text
  }

  // ---- revisions and bodies ----

  const ALPHABET: string := "0123456789abcdef"

  function ByteHex(b: nat): (s: string)
    requires b < 256
    ensures |s| == 2
  {
    [ALPHABET[b / 16], ALPHABET[b % 16]]
  }

  function HexOf(bytes: seq<nat>): (s: string)
    requires forall i :: 0 <= i < |bytes| ==> bytes[i] < 256
    ensures |s| == 2 * |bytes|
    decreases |bytes|
  {
    if bytes == [] then ""
    else HexOf(bytes[..|bytes| - 1]) + ByteHex(bytes[|bytes| - 1])
  }

  /** `compute_revision`: the number wraps around at 32 bits. */
  function ComputeRevision(env: Env, prev: Rev, body: string): Rev {
    MakeRev((prev.num + 1) % 0x1_0000_0000, HexOf(env.md5(body)))
  }

  /** A stored document: [deleted, previous revision, attachments, content]. */
  function BodyJson(prev: Rev, content: Json): Json {
    List([Bool(false), Str(prev.text), Null, content])
  }

  function BodyText(env: Env, prev: Rev, content: Json): string {
    Text(env.libc, Compact, 0, BodyJson(prev, content))
  }

  // ---- put ----

  datatype Status = UpdateOk | UpdateConflict

  datatype PutResult = PutResult(code: Status, newRev: Rev, log: Json)

  /** A call returns, throws, or stops at a failed `assert`. */
  datatype Outcome = Done(result: PutResult) | Exception | AssertFailure

  /** The test for a conflict; the identifier is looked at only when the numbers agree. */
  function TopDiffers(quad: seq<Json>, rev: Rev): Option<bool> {
    if |quad| < 1 || !quad[0].Int? then None
    else if rev.num != quad[0].i then Some(true)
    else if |quad| < 2 || !quad[1].Str? then None
    else Some(rev.uniq != quad[1].s)
  }

  /** `put` once the conflict test is done: the document, then the log. */
  function Write(env: Env, store: Store, path: string, log: Json,
    hasPrev: bool, needToMerge: bool, prev: Rev, content: Json): (Store, Outcome)
    requires log.List?
  {
    var body := BodyText(env, prev, content);
    var rev := ComputeRevision(env, prev, body);
    var store1 := store[path + rev.text := body];
    if rev.Empty() then (store1, AssertFailure)
    else if needToMerge then
      match MergeJson(log, rev, [])
      case Thrown => (store1, Exception)
      case AssertFailed => (store1, AssertFailure)
      case Merged(log1) => WriteLog(env, store1, path, rev, log1)
    else
      var log1 := if !prev.Empty() && !hasPrev then AddRevInfo(log, prev, false, false) else log;
      WriteLog(env, store1, path, rev, AddRevInfo(log1, rev, true, false))
  }

  function WriteLog(env: Env, store: Store, path: string, rev: Rev, log: Json): (Store, Outcome) {
    (store[path := Text(env.libc, Compact, 0, log)], Done(PutResult(UpdateOk, rev, log)))
  }

  /** `Database::put`. */
  function Put(env: Env, store: Store, db: string, id: string, prev: Rev, content: Json, doMerge: bool): (Store, Outcome) {
    var path := MakePath(db, id);
    if path !in store then Write(env, store, path, EMPTY_LOG, false, false, prev, content)
    else
      match StringToJson(env.libc, store[path])
      case Loaded(log) =>
        (match TopQuad(log)
         case None => (store, Exception)
         case Some(quad) =>
           match TopDiffers(quad, prev)
           case None => (store, Exception)
           case Some(differs) =>
             if differs && !doMerge then (store, Done(PutResult(UpdateConflict, EMPTY, log)))
             else Write(env, store, path, log, true, differs, prev, content))
      case _ => (store, Exception)
  }

  // ---- get ----

  datatype RevInfo = RevInfo(id: string, deleted: bool, previous: Rev, rev: Rev)

  /** The return value and the out-parameters that were asked for and set; or an exception; or what reading the
      last item of an empty list does, which C++ leaves undefined. */
  datatype Got =
    | Got(found: bool, content: Option<Json>, rev: Option<RevInfo>, log: Option<Json>)
    | GetThrew
    | GetUndefined

  /** A stored document, read under a known revision. */
  function ReadDoc(env: Env, store: Store, db: string, id: string,
    num: Rev, wantContent: bool, wantRev: bool, log: Option<Json>): Got {
    var key := DocKey(db, id, num);
    if key !in store then Got(false, None, None, log)
    else
      match StringToJson(env.libc, store[key])
      case Loaded(List(lst)) =>
        if wantContent && |lst| < 4 then GetThrew
        else
          var content := if wantContent then Some(lst[3]) else None;
          if !wantRev then Got(true, content, None, log)
          else if |lst| < 2 || !lst[0].Bool? || !lst[1].Str? then GetThrew
          else
            (match ParseRev(lst[1].s)
             case None => GetThrew
             case Some(previous) => Got(true, content, Some(RevInfo(id, lst[0].b, previous, num)), log))
      case _ => GetThrew
  }

  /** What moving a value away leaves behind: its kind, but no contents. */
  function MovedFrom(v: Json): Json {
    match v
    case Map(_) => Map([])
    case List(_) => List([])
    case _ => v
  }

  /** The document of the log's top. */
  function ReadTop(env: Env, store: Store, db: string, id: string, log: Json,
    wantContent: bool, wantRev: bool, asked: Option<Json>): Got
  {
    if log == List([]) then GetUndefined
    else
      match TopRev(log)
      case None => GetThrew
      case Some(top) => ReadDoc(env, store, db, id, top, wantContent, wantRev, asked)
  }

  /** `Database::get`. A log that was asked for has been moved away by the time its top is looked up. */
  function Get(env: Env, store: Store, db: string, id: string, num: Option<Rev>,
    wantContent: bool, wantRev: bool, wantLog: bool): Got
    requires wantContent || wantRev || wantLog
  {
    var path := MakePath(db, id);
    if num.Some? && !wantLog then ReadDoc(env, store, db, id, num.value, wantContent, wantRev, None)
    else if path !in store then Got(false, None, None, None)
    else
      match StringToJson(env.libc, store[path])
      case Loaded(log) =>
        (var asked := if wantLog then Some(log) else None;
         if !wantContent && !wantRev then Got(true, None, None, asked)
         else if num.Some? then ReadDoc(env, store, db, id, num.value, wantContent, wantRev, asked)
         else ReadTop(env, store, db, id, if wantLog then MovedFrom(log) else log, wantContent, wantRev, asked))
      case _ => GetThrew
  }

  // ---- runs ----

  /** One call of `put` on some database. */
  datatype Op = Op(db: string, id: string, prev: Rev, content: Json, doMerge: bool)

  function Apply(env: Env, store: Store, op: Op): (Store, Outcome) {
    Put(env, store, op.db, op.id, op.prev, op.content, op.doMerge)
  }

  /** The store after a sequence of calls; a crash at an assertion is followed by a restart. */
  function RunOps(env: Env, store: Store, ops: seq<Op>): Store
    decreases |ops|
  {
    if ops == [] then store else RunOps(env, Apply(env, store, ops[0]).0, ops[1..])
  }
}
