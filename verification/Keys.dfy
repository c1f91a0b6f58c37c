/** Which documents share keys, and with which revisions, exactly. */
module Keys {
  import opened Strings
  import opened Decimal
  import opened Revision
  import opened DatabaseSpec

  /** A database name without the separator that ends it in a key. */
  predicate ProperName(db: string) {
    forall i :: 0 <= i < |db| - 1 ==> !(db[i] == '!' && db[i + 1] == '\0')
  }

  /** A revision string that can follow the revision separator unambiguously. */
  predicate PlainText(s: string) { s != "" && Without(s, '@') }

  /** Two names of one document: all keys start with the path. */
  predicate SameDoc(db: string, id: string, db2: string, id2: string) {
    MakePath(db, id) == MakePath(db2, id2)
  }

  // ---- names ----

  lemma NameSplit(a: string, x: string, b: string, y: string)
    requires ProperName(a) && ProperName(b) && a + "!\0" + x == b + "!\0" + y
    ensures a == b && x == y
  {
    NameNotShorter(a, x, b, y);
    NameNotShorter(b, y, a, x);
    var s := a + "!\0" + x;
    assert a == s[..|a|] && b == s[..|b|];
    assert x == s[|a| + 2..] && y == s[|b| + 2..];
  }

  lemma NameNotShorter(a: string, x: string, b: string, y: string)
    requires ProperName(b) && a + "!\0" + x == b + "!\0" + y
    ensures |a| >= |b|
  {
    var s := a + "!\0" + x;
    assert s[|a|] == '!' && s[|a| + 1] == '\0' && s[|b|] == '!';
    forall k | 0 <= k < |b| - 1 ensures !(s[k] == '!' && s[k + 1] == '\0') {
      assert s[k] == b[k] && s[k + 1] == b[k + 1];
    }
  }

  /** Log keys are injective. */
  lemma PathInjective(db: string, id: string, db2: string, id2: string)
    requires ProperName(db) && ProperName(db2) && SameDoc(db, id, db2, id2)
    ensures db == db2 && id == id2
  {
    var a, b := db + "!\0" + (id + "@"), db2 + "!\0" + (id2 + "@");
    assert MakePath(db, id) == "_data/\0" + a && MakePath(db2, id2) == "_data/\0" + b;
    assert a == MakePath(db, id)[7..] && b == MakePath(db2, id2)[7..];
    NameSplit(db, id + "@", db2, id2 + "@");
    assert id == (id + "@")[..|id|] && id2 == (id2 + "@")[..|id2|];
  }

  /** A name that holds the separator, cut at the first one. */
  lemma {:induction false} CutName(db: string) returns (front: string, rest: string)
    requires !ProperName(db)
    ensures ProperName(front) && db == front + "!\0" + rest
    decreases |db|
  {
    if db[0] == '!' && db[1] == '\0' {
      front, rest := "", db[2..];
    } else {
      var tail := db[1..];
      assert !ProperName(tail) by {
        var i :| 0 <= i < |db| - 1 && db[i] == '!' && db[i + 1] == '\0';
        assert tail[i - 1] == '!' && tail[i] == '\0';
      }
      var f, r := CutName(tail);
      front, rest := [db[0]] + f, r;
      assert db == [db[0]] + tail;
      forall i | 0 <= i < |front| - 1 ensures !(front[i] == '!' && front[i + 1] == '\0') {
        if i == 0 { assert front[1] == tail[0]; } else { assert front[i] == f[i - 1] && front[i + 1] == f[i]; }
      }
    }
  }

  /** Every document of a database whose name holds the separator is also a document of a properly named one. */
  lemma ImproperNameIsShared(db: string, id: string) returns (db2: string, id2: string)
    requires !ProperName(db)
    ensures ProperName(db2) && SameDoc(db, id, db2, id2)
  {
    var front, rest := CutName(db);
    db2, id2 := front, rest + "!\0" + id;
    assert db + "!\0" + id + "@" == front + "!\0" + id2 + "@";
    assert MakePath(db, id) == "_data/\0" + (db + "!\0" + id + "@");
    assert MakePath(db2, id2) == "_data/\0" + (front + "!\0" + id2 + "@");
  }

  /** A database shares no document with any properly named one if and only if its own name lacks the separator. */
  lemma ProperNameExactly(db: string)
    ensures ProperName(db) <==>
      forall id, db2, id2 :: ProperName(db2) && SameDoc(db, id, db2, id2) ==> db == db2 && id == id2
  {
    if ProperName(db) {
      forall id, db2, id2 | ProperName(db2) && SameDoc(db, id, db2, id2) ensures db == db2 && id == id2 {
        PathInjective(db, id, db2, id2);
      }
    } else {
      var db2, id2 := ImproperNameIsShared(db, "");
      assert SameDoc(db, "", db2, id2);
    }
  }

  // ---- keys of documents ----

  predicate EndsInSeparator(p: string) { p != "" && p[|p| - 1] == '@' }

  lemma PathEnds(db: string, id: string)
    ensures EndsInSeparator(MakePath(db, id))
  {
  }

  lemma SplitKey(p: string, x: string, q: string, y: string)
    requires Without(x, '@') && Without(y, '@') && EndsInSeparator(p) && EndsInSeparator(q) && p + x == q + y
    ensures p == q && x == y
  {
    var a, b := p[..|p| - 1], q[..|q| - 1];
    assert p == a + ['@'] && q == b + ['@'];
    SplitAtLast(a, x, b, y, '@');
  }

  /** Document keys are injective. */
  lemma DocKeyInjective(db: string, id: string, r: Rev, db2: string, id2: string, r2: Rev)
    requires PlainText(r.text) && PlainText(r2.text)
    requires DocKey(db, id, r) == DocKey(db2, id2, r2)
    ensures SameDoc(db, id, db2, id2) && r.text == r2.text
  {
    SplitKey(MakePath(db, id), r.text, MakePath(db2, id2), r2.text);
  }

  /** No document key is a log key. */
  lemma DocKeyIsNoPath(db: string, id: string, r: Rev, db2: string, id2: string)
    requires PlainText(r.text)
    ensures DocKey(db, id, r) != MakePath(db2, id2)
  {
    if DocKey(db, id, r) == MakePath(db2, id2) {
      assert MakePath(db2, id2) + "" == MakePath(db2, id2);
      SplitKey(MakePath(db, id), r.text, MakePath(db2, id2), "");
    }
  }

  /** A string with which a key stays that of its own document: what follows the last separator in it, if there is
      one, is neither empty nor a computed revision. */
  ghost predicate Isolated(text: string) {
    forall a, b :: text == a + "@" + b && Without(b, '@') ==> b != "" && !ComputedText(b)
  }

  /** The string of a revision as `compute_revision` makes it. */
  ghost predicate ComputedText(s: string) {
    exists num: uint32, uniq :: HexText(uniq) && s == MakeRev(num, uniq).text
  }

  lemma PlainIsIsolated(text: string)
    requires PlainText(text)
    ensures Isolated(text)
  {
    forall a, b ensures text != a + "@" + b { HoldsSeparator(a, b); }
  }

  lemma HoldsSeparator(a: string, b: string)
    ensures !Without(a + "@" + b, '@')
  {
    assert (a + "@" + b)[|a|] == '@';
  }

  lemma {:induction false} LastSeparator(text: string) returns (a: string, b: string)
    requires !Without(text, '@')
    ensures text == a + "@" + b && Without(b, '@')
    decreases |text|
  {
    var n := |text| - 1;
    if text[n] == '@' {
      a, b := text[..n], "";
    } else {
      var c, d := LastSeparator(text[..n]);
      a, b := c, d + [text[n]];
      assert text == text[..n] + [text[n]];
    }
  }

  lemma IsolatedSplit(p: string, t: string, q: string, n: string)
    requires EndsInSeparator(p) && EndsInSeparator(q) && p != q
    requires Isolated(t) && Without(n, '@') && (n == "" || ComputedText(n))
    ensures p + t != q + n
  {
    hide ComputedText;
    if p + t == q + n {
      if Without(t, '@') {
        SplitKey(p, t, q, n);
      } else {
        var a, b := LastSeparator(t);
        assert p + t == (p + a + "@") + b;
        SplitKey(p + a + "@", b, q, n);
      }
    }
  }

  /** A document key with an isolated string is no key that a call on another document can write. */
  lemma IsolatedKeys(db: string, id: string, r: Rev, db2: string, id2: string, num: uint32, uniq: string)
    requires Isolated(r.text) && !SameDoc(db, id, db2, id2) && HexText(uniq)
    ensures DocKey(db, id, r) != MakePath(db2, id2)
    ensures DocKey(db, id, r) != DocKey(db2, id2, MakeRev(num, uniq))
  {
    HexRevIsPlain(num, uniq);
    assert ComputedText(MakeRev(num, uniq).text);
    hide MakePath, MakeRev, HexText, Isolated, ComputedText, EndsInSeparator;
    var p, q := MakePath(db, id), MakePath(db2, id2);
    PathEnds(db, id);
    PathEnds(db2, id2);
    IsolatedSplit(p, r.text, q, "");
    IsolatedSplit(p, r.text, q, MakeRev(num, uniq).text);
    assert q + "" == q;
  }

  // ---- computed revisions ----

  predicate IsHexChar(c: char) { '0' <= c <= '9' || 'a' <= c <= 'f' }

  /** An identifier as `compute_revision` makes it. */
  predicate HexText(u: string) {
    |u| == 32 && forall i :: 0 <= i < |u| ==> IsHexChar(u[i])
  }

  lemma {:induction false} HexOfChars(bytes: seq<nat>)
    requires forall i :: 0 <= i < |bytes| ==> bytes[i] < 256
    ensures forall i :: 0 <= i < |HexOf(bytes)| ==> IsHexChar(HexOf(bytes)[i])
    decreases |bytes|
  {
    hide IsHexChar, ByteHex;
    if bytes != [] {
      HexOfChars(bytes[..|bytes| - 1]);
      ByteHexChars(bytes[|bytes| - 1]);
    }
  }

  lemma AlphabetValue(d: nat)
    requires d < 16
    ensures ALPHABET[d] as int == (if d < 10 then d + '0' as int else d - 10 + 'a' as int) && IsHexChar(ALPHABET[d])
  {
  }

  lemma ByteHexChars(b: nat)
    requires b < 256
    ensures IsHexChar(ByteHex(b)[0]) && IsHexChar(ByteHex(b)[1])
  {
    AlphabetValue(b / 16);
    AlphabetValue(b % 16);
  }

  lemma ByteHexInjective(a: nat, b: nat)
    requires a < 256 && b < 256 && ByteHex(a) == ByteHex(b)
    ensures a == b
  {
    AlphabetValue(a / 16);
    AlphabetValue(a % 16);
    AlphabetValue(b / 16);
    AlphabetValue(b % 16);
    assert ByteHex(a)[0] == ByteHex(b)[0] && ByteHex(a)[1] == ByteHex(b)[1];
  }

  /** The identifier determines the digest. */
  lemma {:induction false} HexOfInjective(a: seq<nat>, b: seq<nat>)
    requires forall i :: 0 <= i < |a| ==> a[i] < 256
    requires forall i :: 0 <= i < |b| ==> b[i] < 256
    requires HexOf(a) == HexOf(b)
    ensures a == b
    decreases |a|
  {
    hide ByteHex;
    assert |a| == |b|;
    if a != [] {
      var n := |a| - 1;
      SameEnds(HexOf(a[..n]), ByteHex(a[n]), HexOf(b[..n]), ByteHex(b[n]));
      HexOfInjective(a[..n], b[..n]);
      ByteHexInjective(a[n], b[n]);
      assert a == a[..n] + [a[n]] && b == b[..n] + [b[n]];
    }
  }

  function HexValue(c: char): nat
    requires IsHexChar(c)
  {
    if c <= '9' then c as int - '0' as int else c as int - 'a' as int + 10
  }

  lemma HexValueInverse(c: char)
    requires IsHexChar(c)
    ensures HexValue(c) < 16 && ALPHABET[HexValue(c)] == c
  {
    AlphabetValue(HexValue(c));
  }

  /** Every text of that form is the identifier of some digest. */
  lemma {:induction false} HexOfSurjective(u: string) returns (bytes: seq<nat>)
    requires |u| % 2 == 0 && forall i :: 0 <= i < |u| ==> IsHexChar(u[i])
    ensures |bytes| == |u| / 2 && (forall i :: 0 <= i < |bytes| ==> bytes[i] < 256) && HexOf(bytes) == u
    decreases |u|
  {
    hide IsHexChar;
    if u == "" {
      bytes := [];
    } else {
      var n := |u|;
      var x, y := HexValue(u[n - 2]), HexValue(u[n - 1]);
      HexValueInverse(u[n - 2]);
      HexValueInverse(u[n - 1]);
      var front := HexOfSurjective(u[..n - 2]);
      var b := 16 * x + y;
      assert b / 16 == x && b % 16 == y;
      bytes := front + [b];
      assert bytes[..|bytes| - 1] == front;
      assert u == u[..n - 2] + [u[n - 2], u[n - 1]];
    }
  }

  lemma SameEnds(x: string, p: string, y: string, q: string)
    requires |p| == |q| && x + p == y + q
    ensures x == y && p == q
  {
    assert x == (x + p)[..|x|] && y == (y + q)[..|y|];
    assert p == (x + p)[|x|..] && q == (y + q)[|y|..];
  }

  lemma ComputedIsHex(env: Env, prev: Rev, body: string)
    ensures HexText(ComputeRevision(env, prev, body).uniq)
  {
    HexOfChars(env.md5(body));
  }

  /** A revision with a computed identifier has a plain string. */
  lemma HexRevIsPlain(num: uint32, uniq: string)
    requires HexText(uniq)
    ensures PlainText(MakeRev(num, uniq).text)
  {
  }
}
