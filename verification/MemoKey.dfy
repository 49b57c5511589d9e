/** The decision memo's key: five components joined by U+001F, an absent optional spelled U+0000. */
module MemoKey {
  import opened Wrappers
  import opened Texts

  const SEP: CodePoint := 0x1F
  const ABSENT: Text := [0]

  /** One access question, as `check_access` puts it on a given handle. */
  datatype Question = Question(
    action: Text, resource: Text, scope: Option<Text>, subject: Option<Text>, actingTenant: Option<Text>)

  function Spell(o: Option<Text>): Text {
    match o
    case None => ABSENT
    case Some(s) => s
  }

  function Join(first: Text, rest: Text): Text { first + [SEP] + rest }

  function Key(q: Question): Text {
    Join(Spell(q.subject), Join(q.resource, Join(q.action, Join(Spell(q.scope), Spell(q.actingTenant)))))
  }

  // ---- Injectivity -----------------------------------------------------------------------

  predicate SeparatorFree(q: Question) {
    SEP !in Spell(q.subject) && SEP !in q.resource && SEP !in q.action && SEP !in Spell(q.scope) &&
    SEP !in Spell(q.actingTenant)
  }

  /** No optional is present with the value that spells absence. */
  predicate Distinguishable(q: Question) {
    q.subject != Some(ABSENT) && q.scope != Some(ABSENT) && q.actingTenant != Some(ABSENT)
  }

  function Count(s: Text): nat {
    if s == [] then 0 else (if s[0] == SEP then 1 else 0) + Count(s[1..])
  }

  lemma {:induction false} CountConcat(a: Text, b: Text)
    ensures Count(a + b) == Count(a) + Count(b)
  {
    if a == [] {
      assert a + b == b;
    } else {
      CountConcat(a[1..], b);
      assert (a + b)[1..] == a[1..] + b;
    }
  }

  lemma {:induction false} CountZero(s: Text)
    ensures Count(s) == 0 <==> SEP !in s
  {
    if s == [] {
    } else {
      CountZero(s[1..]);
      assert s == [s[0]] + s[1..];
    }
  }

  lemma CountJoin(first: Text, rest: Text)
    ensures Count(Join(first, rest)) == Count(first) + 1 + Count(rest)
  {
    CountConcat(first, [SEP]);
    CountConcat(first + [SEP], rest);
  }

  lemma CountKey(q: Question)
    ensures Count(Key(q)) == 4 + Count(Spell(q.subject)) + Count(q.resource) + Count(q.action) + Count(Spell(q.scope)) +
            Count(Spell(q.actingTenant))
  {
    CountJoin(Spell(q.scope), Spell(q.actingTenant));
    CountJoin(q.action, Join(Spell(q.scope), Spell(q.actingTenant)));
    CountJoin(q.resource, Join(q.action, Join(Spell(q.scope), Spell(q.actingTenant))));
    CountJoin(Spell(q.subject), Join(q.resource, Join(q.action, Join(Spell(q.scope), Spell(q.actingTenant)))));
  }

  /** The first separator of a joined text is the end of its first component. */
  lemma Cut(a: Text, x: Text, b: Text, y: Text)
    requires SEP !in a && SEP !in b
    requires Join(a, x) == Join(b, y)
    ensures a == b && x == y
  {
    var s, t := Join(a, x), Join(b, y);
    assert s[|a|] == SEP && t[|b|] == SEP;
    assert forall i | 0 <= i < |a| :: s[i] == a[i] && a[i] in a;
    assert forall i | 0 <= i < |b| :: t[i] == b[i] && b[i] in b;
    assert |a| == |b|;
    assert a == s[..|a|] && b == t[..|a|];
    assert x == s[|a| + 1..] && y == t[|a| + 1..];
  }

  lemma CutAll(p: Question, q: Question)
    requires SeparatorFree(p) && SeparatorFree(q) && Key(p) == Key(q)
    ensures SameSpelling(p, q)
  {
    var p4, q4 := Join(Spell(p.scope), Spell(p.actingTenant)), Join(Spell(q.scope), Spell(q.actingTenant));
    var p3, q3 := Join(p.action, p4), Join(q.action, q4);
    var p2, q2 := Join(p.resource, p3), Join(q.resource, q3);
    Cut(Spell(p.subject), p2, Spell(q.subject), q2);
    Cut(p.resource, p3, q.resource, q3);
    Cut(p.action, p4, q.action, q4);
    Cut(Spell(p.scope), Spell(p.actingTenant), Spell(q.scope), Spell(q.actingTenant));
  }

  /** Equal component by component, up to an absent optional against a present U+0000. */
  ghost predicate SameSpelling(p: Question, q: Question) {
    Spell(p.subject) == Spell(q.subject) && p.resource == q.resource && p.action == q.action &&
    Spell(p.scope) == Spell(q.scope) && Spell(p.actingTenant) == Spell(q.actingTenant)
  }

  lemma CountSeparatorFree(q: Question)
    ensures SeparatorFree(q) <==>
            Count(Spell(q.subject)) == Count(q.resource) == Count(q.action) == Count(Spell(q.scope)) ==
            Count(Spell(q.actingTenant)) == 0
  {
    CountZero(Spell(q.subject));
    CountZero(q.resource);
    CountZero(q.action);
    CountZero(Spell(q.scope));
    CountZero(Spell(q.actingTenant));
  }

  /** Whatever the other question contains, it has the key of a separator-free one exactly when it is spelled alike. */
  lemma KeysAgreeExactly(p: Question, q: Question)
    requires SeparatorFree(q)
    ensures Key(p) == Key(q) <==> SameSpelling(p, q)
  {
    if Key(p) == Key(q) {
      CountKey(p);
      CountKey(q);
      CountSeparatorFree(p);
      CountSeparatorFree(q);
      CutAll(p, q);
    }
  }

  // ---- Questions with a key of their own --------------------------------------------------------

  ghost predicate KeyIsUnique(q: Question) { forall p :: Key(p) == Key(q) ==> p == q }

  /** Every optional is there, and is not spelled like an absent one. */
  predicate AllPresent(q: Question) {
    Spell(q.subject) != ABSENT && Spell(q.scope) != ABSENT && Spell(q.actingTenant) != ABSENT
  }

  /** Among all questions, one has a key of its own exactly when no component contains the separator and every
      optional is present and not U+0000. */
  lemma UniqueExactlyWhenPresentAndSeparatorFree(q: Question)
    ensures KeyIsUnique(q) <==> SeparatorFree(q) && AllPresent(q)
  {
    if !SeparatorFree(q) {
      var p := Collision(q);
    } else if !AllPresent(q) {
      var p := RespellAbsent(q);
    } else {
      forall p | Key(p) == Key(q) ensures p == q { KeysAgreeExactly(p, q); }
    }
  }

  ghost predicate KeyIsUniqueAmongDistinguishable(q: Question) {
    forall p :: Distinguishable(p) && Key(p) == Key(q) ==> p == q
  }

  /** Among questions whose present optionals are never U+0000, absent optionals do no harm: such a question has a key
      of its own exactly when no component of it contains the separator. */
  lemma UniqueExactlyWhenSeparatorFree(q: Question)
    requires Distinguishable(q)
    ensures KeyIsUniqueAmongDistinguishable(q) <==> SeparatorFree(q)
  {
    if SeparatorFree(q) {
      forall p | Distinguishable(p) && Key(p) == Key(q) ensures p == q { KeysAgreeExactly(p, q); }
    } else {
      var p := Collision(q);
    }
  }

  function Read(s: Text): Option<Text> { if s == ABSENT then None else Some(s) }

  lemma SplitAtSeparator(s: Text) returns (left: Text, right: Text)
    requires SEP in s
    ensures s == Join(left, right) && |left| < |s| && |right| < |s|
  {
    var i :| 0 <= i < |s| && s[i] == SEP;
    left, right := s[..i], s[i + 1..];
  }

  lemma JoinAssociates(a: Text, b: Text, c: Text)
    ensures Join(Join(a, b), c) == Join(a, Join(b, c))
  {}

  /** The question a component with a separator in it is mistaken for. */
  lemma Collision(q: Question) returns (p: Question)
    requires !SeparatorFree(q)
    ensures p != q && Key(p) == Key(q) && (Distinguishable(q) ==> Distinguishable(p))
  {
    var d, e := Spell(q.scope), Spell(q.actingTenant);
    if SEP in Spell(q.subject) {
      var l, r := SplitAtSeparator(Spell(q.subject));
      p := q.(subject := Read(l), resource := Join(r, q.resource));
      JoinAssociates(r, q.resource, Join(q.action, Join(d, e)));
      JoinAssociates(l, r, Join(q.resource, Join(q.action, Join(d, e))));
    } else if SEP in q.resource {
      var l, r := SplitAtSeparator(q.resource);
      p := q.(resource := l, action := Join(r, q.action));
      JoinAssociates(r, q.action, Join(d, e));
      JoinAssociates(l, r, Join(q.action, Join(d, e)));
    } else if SEP in q.action {
      var l, r := SplitAtSeparator(q.action);
      p := q.(action := l, scope := Read(Join(r, d)));
      JoinAssociates(r, d, e);
      JoinAssociates(l, r, Join(d, e));
    } else if SEP in d {
      var l, r := SplitAtSeparator(d);
      p := q.(scope := Read(l), actingTenant := Read(Join(r, e)));
      JoinAssociates(l, r, e);
    } else {
      var l, r := SplitAtSeparator(e);
      p := q.(scope := Read(Join(d, l)), actingTenant := Read(r));
      JoinAssociates(d, l, r);
    }
  }

  /** An absent optional and one equal to U+0000 cannot be told apart. */
  lemma RespellAbsent(q: Question) returns (p: Question)
    requires !AllPresent(q)
    ensures p != q && Key(p) == Key(q)
  {
    if Spell(q.subject) == ABSENT {
      p := q.(subject := if q.subject.None? then Some(ABSENT) else None);
    } else if Spell(q.scope) == ABSENT {
      p := q.(scope := if q.scope.None? then Some(ABSENT) else None);
    } else {
      p := q.(actingTenant := if q.actingTenant.None? then Some(ABSENT) else None);
    }
  }

  /** Whatever else a question contains, spelling an absent optional as U+0000 leaves its key alone. */
  lemma PresentNulReadsAsAbsent(q: Question)
    ensures Key(q.(scope := Some(ABSENT))) == Key(q.(scope := None))
    ensures Key(q.(subject := Some(ABSENT))) == Key(q.(subject := None))
    ensures Key(q.(actingTenant := Some(ABSENT))) == Key(q.(actingTenant := None))
  {}
}
