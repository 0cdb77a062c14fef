/** The key `CacheCheck` files a decision under, and when it tells queries apart. */
module AclMemo {
  import opened Names
  import opened Wrappers
  import opened AclModel
  import opened AclDecision

  /** A DN as text. */
  function Text(dn: Dn): string {
    if dn == [] then "" else if |dn| == 1 then dn[0] else dn[0] + "," + Text(dn[1..])
  }

  function UserText(user: Option<string>): string {
    match user
    case None => "None"
    case Some(u) => u
  }

  function Key(q: Query): string {
    UserText(q.user) + "." + (q.topic + "." + q.acls + if q.base.Some? then "." + Text(q.base.value) else "")
  }

  ghost predicate Free(s: string, c: char) {
    c !in s
  }

  /** A base whose text starts with an attribute type without a dot, and whose RDNs hold no bare comma. */
  ghost predicate PlainBase(dn: Dn) {
    && dn != []
    && (forall r :: r in dn ==> r != "" && Free(r, ','))
    && exists n: nat :: n < |dn[0]| && dn[0][n] == '=' && Free(dn[0][..n], '.') && Free(dn[0][..n], '=')
  }

  /** Queries whose keys can be read back: no dot in the user name, no user called "None",
      no '=' in the topic, rights without '.' and '='. */
  ghost predicate Plain(q: Query) {
    && (q.user.Some? ==> Free(q.user.value, '.') && q.user.value != "None")
    && Free(q.topic, '=') && Free(q.acls, '.') && Free(q.acls, '=')
    && (q.base.Some? ==> PlainBase(q.base.value))
  }

  lemma FirstSplit(a: string, x: string, b: string, y: string, c: char)
    requires a + [c] + x == b + [c] + y && Free(a, c) && Free(b, c)
    ensures a == b && x == y
  {
    var l, r := a + [c] + x, b + [c] + y;
    assert l[|a|] == c && r[|b|] == c;
    assert forall i :: 0 <= i < |a| ==> l[i] == a[i] && a[i] in a;
    assert forall i :: 0 <= i < |b| ==> r[i] == b[i] && b[i] in b;
    assert |a| == |b|;
    assert a == l[..|a|] && b == r[..|b|] && x == l[|a| + 1..] && y == r[|b| + 1..];
  }

  lemma LastSplit(a: string, x: string, b: string, y: string, c: char)
    requires a + [c] + x == b + [c] + y && Free(x, c) && Free(y, c)
    ensures a == b && x == y
  {
    var l, r := a + [c] + x, b + [c] + y;
    assert l[|a|] == c && r[|b|] == c;
    assert forall i :: |a| < i < |l| ==> l[i] == x[i - |a| - 1] && x[i - |a| - 1] in x;
    assert forall i :: |b| < i < |r| ==> r[i] == y[i - |b| - 1] && y[i - |b| - 1] in y;
    assert |a| == |b|;
    assert a == l[..|a|] && b == r[..|b|] && x == l[|a| + 1..] && y == r[|b| + 1..];
  }

  lemma CommaIff(dn: Dn)
    requires dn != [] && forall r :: r in dn ==> Free(r, ',')
    ensures ',' in Text(dn) <==> |dn| > 1
  {
    assert dn[0] in dn;
    if |dn| > 1 {
      assert Text(dn)[|dn[0]|] == ',';
    }
  }

  lemma {:induction false} TextInjective(a: Dn, b: Dn)
    requires a != [] && b != [] && Text(a) == Text(b)
    requires forall r :: r in a || r in b ==> Free(r, ',')
    ensures a == b
    decreases |a|
  {
    CommaIff(a);
    CommaIff(b);
    if |a| > 1 {
      FirstSplit(a[0], Text(a[1..]), b[0], Text(b[1..]), ',');
      TextInjective(a[1..], b[1..]);
    }
  }

  /** The text of a plain base up to its first '='. */
  lemma BaseHead(dn: Dn) returns (h: string, rest: string)
    requires PlainBase(dn)
    ensures Text(dn) == h + "=" + rest && Free(h, '.') && Free(h, '=')
  {
    var n: nat :| n < |dn[0]| && dn[0][n] == '=' && Free(dn[0][..n], '.') && Free(dn[0][..n], '=');
    h := dn[0][..n];
    rest := Text(dn)[n + 1..];
    assert dn[0] <= Text(dn);
    assert Text(dn)[..n] == h && Text(dn)[n] == '=';
  }

  lemma KeyHasBase(q: Query)
    requires Plain(q)
    ensures '=' in q.topic + "." + q.acls + (if q.base.Some? then "." + Text(q.base.value) else "") <==> q.base.Some?
  {
    if q.base.Some? {
      var h, rest := BaseHead(q.base.value);
      var t := h + "=" + rest;
      assert t[|h|] == '=';
    }
  }

  /** Plain queries with the same key are the same query. */
  lemma KeyTellsPlainQueriesApart(p: Query, q: Query)
    requires Plain(p) && Plain(q) && Key(p) == Key(q)
    ensures p == q
  {
    var x := p.topic + "." + p.acls + if p.base.Some? then "." + Text(p.base.value) else "";
    var y := q.topic + "." + q.acls + if q.base.Some? then "." + Text(q.base.value) else "";
    assert Free("None", '.');
    FirstSplit(UserText(p.user), x, UserText(q.user), y, '.');
    KeyHasBase(p);
    KeyHasBase(q);
    if p.base.None? {
      assert x == p.topic + "." + p.acls && y == q.topic + "." + q.acls;
      LastSplit(p.topic, p.acls, q.topic, q.acls, '.');
    } else {
      BasesTellApart(p, q, x);
    }
  }

  lemma BasesTellApart(p: Query, q: Query, x: string)
    requires Plain(p) && Plain(q) && p.base.Some? && q.base.Some?
    requires x == p.topic + "." + p.acls + ("." + Text(p.base.value))
    requires x == q.topic + "." + q.acls + ("." + Text(q.base.value))
    ensures p.topic == q.topic && p.acls == q.acls && p.base == q.base
  {
    var h1, r1 := BaseHead(p.base.value);
    var h2, r2 := BaseHead(q.base.value);
    var a1, a2 := p.topic + "." + p.acls, q.topic + "." + q.acls;
    assert x == (a1 + "." + h1) + "=" + r1 && x == (a2 + "." + h2) + "=" + r2;
    FirstSplit(a1 + "." + h1, r1, a2 + "." + h2, r2, '=');
    LastSplit(a1, h1, a2, h2, '.');
    LastSplit(p.topic, p.acls, q.topic, q.acls, '.');
    TextInjective(p.base.value, q.base.value);
  }

  /** Two queries of two different users that share a key: the dots are not told apart. */
  lemma KeysCanCollide(acls: string, base: Option<Dn>)
    ensures var p, q := Query(Some("a.b"), "c", acls, base), Query(Some("a"), "b.c", acls, base);
      p != q && Key(p) == Key(q)
  {
    var p, q := Query(Some("a.b"), "c", acls, base), Query(Some("a"), "b.c", acls, base);
    var tail := acls + if base.Some? then "." + Text(base.value) else "";
    assert Key(p) == "a.b.c." + tail;
    assert Key(q) == "a.b.c." + tail;
  }

  function Rest(topic: string, acls: string, base: Option<Dn>): string {
    topic + "." + acls + if base.Some? then "." + Text(base.value) else ""
  }

  lemma PrefixOfKey(u: string, v: string, x: string, y: string)
    requires u + "." + x == v + "." + y && |u| < |v|
    ensures u + "." <= v
  {
    assert (u + "." + x)[..|u| + 1] == u + "." && (v + "." + y)[..|u| + 1] == v[..|u| + 1];
  }

  lemma CollidingTopics(u: string, v: string, acls: string, base: Option<Dn>) returns (t1: string, t2: string)
    requires u + "." <= v
    ensures Key(Query(Some(u), t1, acls, base)) == Key(Query(Some(v), t2, acls, base))
  {
    var r := v[|u| + 1..];
    assert v == u + "." + r;
    t1, t2 := r + ".", "";
    assert u + "." + Rest(t1, acls, base) == v + "." + Rest(t2, acls, base);
  }

  /** Two users can share a memo entry, for some topics, if and only if one name continues the other behind a dot. */
  lemma UsersCollideIff(u1: string, u2: string, acls: string, base: Option<Dn>)
    requires u1 != u2
    ensures (exists t1, t2 :: Key(Query(Some(u1), t1, acls, base)) == Key(Query(Some(u2), t2, acls, base))) <==>
              u1 + "." <= u2 || u2 + "." <= u1
  {
    if t1, t2 :| Key(Query(Some(u1), t1, acls, base)) == Key(Query(Some(u2), t2, acls, base)) {
      var x, y := Rest(t1, acls, base), Rest(t2, acls, base);
      assert u1 + "." + x == u2 + "." + y;
      assert (u1 + "." + x)[..|u1|] == u1 && (u2 + "." + y)[..|u2|] == u2;
      if |u1| < |u2| {
        PrefixOfKey(u1, u2, x, y);
      } else if |u2| < |u1| {
        PrefixOfKey(u2, u1, y, x);
      }
    }
    if u1 + "." <= u2 {
      var t1, t2 := CollidingTopics(u1, u2, acls, base);
    } else if u2 + "." <= u1 {
      var t1, t2 := CollidingTopics(u2, u1, acls, base);
    }
  }
}
