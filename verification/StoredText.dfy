/** Documents and logs read back from the texts `put` writes. */
module StoredText {
  import opened Strings
  import opened JsonValue
  import opened Render
  import opened RoundTrip
  import opened Parsing
  import opened Revision
  import opened RevLog
  import opened DatabaseSpec
  import FixedPoint

  function LogText(env: Env, l: Log): string {
    Text(env.libc, Compact, 0, ToJson(l))
  }

  /** What a stored document reads back as. */
  function DocJson(env: Env, prev: Rev, content: Json): Json {
    List([Bool(false), Str(prev.text), Null, Norm(env.libc, content)])
  }

  lemma ListReads(env: Env, xs: seq<Json>)
    requires forall i :: 0 <= i < |xs| ==> Storable(env.libc, xs[i])
    ensures StringToJson(env.libc, Text(env.libc, Compact, 0, List(xs))) == Loaded(List(NormItems(env.libc, xs, 0)))
  {
    hide Text, StringToJson, Storable, NormItems;
    StorableList(env.libc, xs);
    ParsePrint(env.libc, List(xs), false);
    NormOfList(env.libc, xs);
  }

  lemma StorableList(libc: Libc, xs: seq<Json>)
    requires forall i :: 0 <= i < |xs| ==> Storable(libc, xs[i])
    ensures Storable(libc, List(xs)) && Container(Ungraft(List(xs)))
  {
  }

  lemma NormOfList(libc: Libc, xs: seq<Json>)
    ensures Norm(libc, List(xs)) == List(NormItems(libc, xs, 0))
  {
    hide NormItems;
  }

  lemma BodyReads(env: Env, prev: Rev, content: Json)
    requires Storable(env.libc, content)
    ensures StringToJson(env.libc, BodyText(env, prev, content)) == Loaded(DocJson(env, prev, content))
  {
    var xs := [Bool(false), Str(prev.text), Null, content];
    assert forall i :: 0 <= i < |xs| ==> Storable(env.libc, xs[i]);
    hide Text, StringToJson, Storable;
    ListReads(env, xs);
    FourItems(env.libc, xs);
  }

  lemma FourItems(libc: Libc, xs: seq<Json>)
    requires |xs| == 4
    ensures NormItems(libc, xs, 0) == [Norm(libc, xs[0]), Norm(libc, xs[1]), Norm(libc, xs[2]), Norm(libc, xs[3])]
  {
    hide Norm;
    assert NormItems(libc, xs, 4) == [];
    assert NormItems(libc, xs, 3) == [Norm(libc, xs[3])];
    assert NormItems(libc, xs, 2) == [Norm(libc, xs[2]), Norm(libc, xs[3])];
    assert NormItems(libc, xs, 1) == [Norm(libc, xs[1]), Norm(libc, xs[2]), Norm(libc, xs[3])];
  }

  /** The content in a stored text, if the text loads and has one. */
  function ContentOf(env: Env, text: string): Option<Json> {
    match StringToJson(env.libc, text)
    case Loaded(List(lst)) => if |lst| < 4 then None else Some(lst[3])
    case _ => None
  }

  lemma LoadedContentIsImage(env: Env, text: string)
    ensures ContentOf(env, text).Some? ==> FixedPoint.Image(ContentOf(env, text).value)
  {
    if StringToJson(env.libc, text).Loaded? {
      FixedPoint.ParseImage(env.libc, text);
    }
    hide StringToJson;
  }

  /** The norm of a content that prints as JSON is read back if and only if no key in the content is empty. */
  lemma NormReadsExactly(env: Env, prev: Rev, content: Json)
    requires WellFormed(content) && Printable(env.libc, content)
    ensures ContentOf(env, BodyText(env, prev, content)) == Some(Norm(env.libc, content)) <==> NamedKeys(content)
  {
    hide StringToJson, BodyText, Norm, FixedPoint.Image, WellFormed, NamedKeys, Printable;
    if NamedKeys(content) {
      BodyReads(env, prev, content);
    } else if ContentOf(env, BodyText(env, prev, content)) == Some(Norm(env.libc, content)) {
      LoadedContentIsImage(env, BodyText(env, prev, content));
      FixedPoint.NormNamed(env.libc, content);
    }
  }

  /** The very content is read back if and only if it has the stable shape and its doubles survive. */
  lemma ContentReadsExactly(env: Env, prev: Rev, content: Json)
    requires WellFormed(content) && FixedPoint.ProperLibc(env.libc)
    ensures ContentOf(env, BodyText(env, prev, content)) == Some(content) <==>
      FixedPoint.Image(content) && FixedPoint.DoublesSurvive(env.libc, content)
  {
    hide StringToJson, BodyText, Norm, Storable, WellFormed, FixedPoint.Image, FixedPoint.DoublesSurvive, FixedPoint.ProperLibc;
    LoadedContentIsImage(env, BodyText(env, prev, content));
    if FixedPoint.Image(content) {
      FixedPoint.ImageIsStorable(env.libc, content);
      FixedPoint.NormFixesImage(env.libc, content);
      BodyReads(env, prev, content);
    }
  }

  /** Nothing but strings, ints, booleans and lists: stored and read back unchanged whatever the C library. */
  ghost predicate Simple(v: Json) {
    match v
    case List(xs) => forall i :: 0 <= i < |xs| ==> Simple(xs[i])
    case _ => v.Str? || v.Int? || v.Bool?
  }

  lemma {:induction false} SimpleIsKept(libc: Libc, v: Json)
    requires Simple(v)
    ensures Storable(libc, v) && FixedPoint.Image(v) && FixedPoint.DoublesSurvive(libc, v)
    decreases v
  {
    match v
    case List(xs) => forall i | 0 <= i < |xs| ensures Storable(libc, xs[i]) && FixedPoint.Image(xs[i]) &&
      FixedPoint.DoublesSurvive(libc, xs[i]) {
      SimpleIsKept(libc, xs[i]);
    }
    case _ =>
  }

  lemma LogIsSimple(l: Log)
    ensures Simple(ToJson(l))
  {
    var js := ToJson(l).items;
    assert Simple(List(Strs(l.conflicts))) && Simple(List([]));
    forall i | 0 <= i < |js| ensures Simple(js[i]) {
      if i >= 2 {
        var q := l.quads[i - 2];
        assert js[i] == QuadJson(q);
        assert Simple(Int(q.num)) && Simple(Str(q.uniq)) && Simple(Bool(q.available)) && Simple(Bool(q.deleted));
      }
    }
  }

  lemma LogReads(env: Env, l: Log)
    ensures StringToJson(env.libc, LogText(env, l)) == Loaded(ToJson(l))
  {
    hide Text, StringToJson, ToJson, Simple, FixedPoint.Image, FixedPoint.DoublesSurvive;
    LogIsSimple(l);
    SimpleIsKept(env.libc, ToJson(l));
    FixedPoint.NormFixesImage(env.libc, ToJson(l));
    LogIsList(l);
    ParsePrint(env.libc, ToJson(l), false);
  }

  lemma LogIsList(l: Log)
    ensures ToJson(l).List? && Container(Ungraft(ToJson(l)))
  {
  }
}
