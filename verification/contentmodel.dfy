/** A TEI content model: the RELAX NG fragment inside a specification's
    `<content>`, wrapped into a grammar with a single `_fragment`
    definition, and the names of elements and definitions it reaches. */
module ContentModel {
  import opened Common
  import opened Xml
  import opened Patterns
  import CompactSerializer
  import NamespaceCollector

  /** The name of the definition holding the fragment. */
  const FragmentDefine: string := "_fragment"

  /** `NameClass.listNames()`: every name mentioned by a name class,
      including those inside `except` clauses. */
  function ListNames(nc: NameClass): set<QName> {
    match nc
    case Name(q) => {q}
    case NsName(_, e) => if e.Some? then ListNames(e.value) else {}
    case AnyName(e) => if e.Some? then ListNames(e.value) else {}
    case NameChoice(a, b) => ListNames(a) + ListNames(b)
    case NullName => {}
  }

  /** Only names without a namespace or in the TEI namespace are kept. */
  predicate Qualifies(q: QName) {
    q.ns == "" || q.ns == TeiNs
  }

  /** The local parts an element's name class contributes. */
  function ElementNames(nc: NameClass): (r: set<string>)
    ensures forall n :: n in r <==> exists q :: q in ListNames(nc) && Qualifies(q) && q.local == n
  {
    set q | q in ListNames(nc) && Qualifies(q) :: q.local
  }

  /** What the reference walker records at one node. */
  datatype Token = ElementToken(name: string) | RefToken(name: string)

  /** Every token in a pattern, without following references and without
      entering a data pattern's `except` (the walker does neither). */
  function Tokens(p: Pattern): set<Token>
    decreases p, 1
  {
    match p
    case Element(nc, c) => (set n | n in ElementNames(nc) :: ElementToken(n)) + Tokens(c)
    case Attribute(_, c) => Tokens(c)
    case Group(cs) => TokensSeq(cs)
    case Interleave(cs) => TokensSeq(cs)
    case Choice(cs) => TokensSeq(cs)
    case OneOrMore(c) => Tokens(c)
    case ZeroOrMore(c) => Tokens(c)
    case Optional(c) => Tokens(c)
    case List(c) => Tokens(c)
    case Mixed(c) => Tokens(c)
    case Ref(n) => {RefToken(n)}
    case _ => {}
  }

  function TokensSeq(ps: seq<Pattern>): set<Token>
    decreases ps, 0
  {
    if |ps| == 0 then {} else Tokens(ps[0]) + TokensSeq(ps[1..])
  }

  /** The names a pattern mentions directly. */
  function Direct(p: Pattern): set<string> {
    set t | t in Tokens(p) :: t.name
  }

  /** The tokens of every definition that has a pattern. */
  function DefinesTokens(ds: seq<Define>): set<Token>
    decreases |ds|
  {
    if |ds| == 0 then {}
    else (if ds[0].body.Some? then Tokens(ds[0].body.value) else {}) + DefinesTokens(ds[1..])
  }

  lemma {:induction false} LookupTokens(ds: seq<Define>, n: string)
    requires LookupIn(ds, n).Some?
    ensures Tokens(LookupIn(ds, n).value) <= DefinesTokens(ds)
    decreases |ds|
  {
    if ds[0].name != n {
      LookupTokens(ds[1..], n);
    }
  }

  lemma SubsetCardinality<T>(a: set<T>, b: set<T>)
    requires a <= b
    ensures |a| <= |b|
    decreases |a|
  {
    if a != {} {
      var x :| x in a;
      SubsetCardinality(a - {x}, b - {x});
    }
  }

  /** Recording more names never enlarges the set of definitions still to visit. */
  lemma PendingShrinks(defined: set<string>, acc: set<string>, acc': set<string>)
    requires acc <= acc'
    ensures |defined - acc'| <= |defined - acc|
  {
    SubsetCardinality(defined - acc', defined - acc);
  }

  lemma PendingDrops(defined: set<string>, acc: set<string>, n: string)
    requires n in defined && n !in acc
    ensures |defined - (acc + {n})| < |defined - acc|
  {
    assert defined - (acc + {n}) == (defined - acc) - {n};
  }

  /** The walker of `getReferences`: element names are recorded, and a
      reference is recorded and its definition walked only the first time
      its name is met. `acc` is the set recorded so far. */
  function Walk(g: Grammar, p: Pattern, acc: set<string>): (r: set<string>)
    ensures acc <= r
    decreases |DefinedNames(g) - acc|, Size(p), 1
  {
    match p
    case Element(nc, c) =>
      PendingShrinks(DefinedNames(g), acc, acc + ElementNames(nc));
      Walk(g, c, acc + ElementNames(nc))
    case Attribute(_, c) => Walk(g, c, acc)
    case Group(cs) => WalkSeq(g, cs, acc)
    case Interleave(cs) => WalkSeq(g, cs, acc)
    case Choice(cs) => WalkSeq(g, cs, acc)
    case OneOrMore(c) => Walk(g, c, acc)
    case ZeroOrMore(c) => Walk(g, c, acc)
    case Optional(c) => Walk(g, c, acc)
    case List(c) => Walk(g, c, acc)
    case Mixed(c) => Walk(g, c, acc)
    case Ref(n) =>
      if n in acc then acc
      else
        (match Lookup(g, n)
         case None => acc + {n}
         case Some(b) =>
           PendingDrops(DefinedNames(g), acc, n);
           Walk(g, b, acc + {n}))
    case _ => acc
  }

  function WalkSeq(g: Grammar, ps: seq<Pattern>, acc: set<string>): (r: set<string>)
    ensures acc <= r
    decreases |DefinedNames(g) - acc|, SizeSeq(ps), 2
  {
    if |ps| == 0 then acc
    else
      var first := Walk(g, ps[0], acc);
      PendingShrinks(DefinedNames(g), acc, first);
      WalkSeq(g, ps[1..], first)
  }

  function Names(ts: set<Token>): set<string> {
    set t | t in ts :: t.name
  }

  /** Everything a pattern mentions directly is recorded. */
  lemma {:induction false} WalkCovers(g: Grammar, p: Pattern, acc: set<string>)
    ensures Names(Tokens(p)) <= Walk(g, p, acc)
    decreases |DefinedNames(g) - acc|, Size(p), 1
  {
    match p
    case Element(nc, c) =>
      PendingShrinks(DefinedNames(g), acc, acc + ElementNames(nc));
      WalkCovers(g, c, acc + ElementNames(nc));
    case Attribute(_, c) => WalkCovers(g, c, acc);
    case Group(cs) => WalkSeqCovers(g, cs, acc);
    case Interleave(cs) => WalkSeqCovers(g, cs, acc);
    case Choice(cs) => WalkSeqCovers(g, cs, acc);
    case OneOrMore(c) => WalkCovers(g, c, acc);
    case ZeroOrMore(c) => WalkCovers(g, c, acc);
    case Optional(c) => WalkCovers(g, c, acc);
    case List(c) => WalkCovers(g, c, acc);
    case Mixed(c) => WalkCovers(g, c, acc);
    case Ref(n) =>
    case Empty =>
    case Text =>
    case NotAllowed =>
    case Data(_, _, _, _) =>
    case Value(_, _, _) =>
  }

  lemma {:induction false} WalkSeqCovers(g: Grammar, ps: seq<Pattern>, acc: set<string>)
    ensures Names(TokensSeq(ps)) <= WalkSeq(g, ps, acc)
    decreases |DefinedNames(g) - acc|, SizeSeq(ps), 2
  {
    if |ps| > 0 {
      var first := Walk(g, ps[0], acc);
      WalkCovers(g, ps[0], acc);
      PendingShrinks(DefinedNames(g), acc, first);
      WalkSeqCovers(g, ps[1..], first);
    }
  }

  lemma NamesMonotonic(a: set<Token>, b: set<Token>)
    requires a <= b
    ensures Names(a) <= Names(b)
  {
  }

  /** Nothing is recorded beyond what was already recorded, what the
      pattern mentions and what the definitions mention. */
  lemma {:induction false} WalkSound(g: Grammar, p: Pattern, acc: set<string>)
    ensures Walk(g, p, acc) <= acc + Names(Tokens(p)) + Names(DefinesTokens(g.defines))
    decreases |DefinedNames(g) - acc|, Size(p), 1
  {
    match p
    case Element(nc, c) =>
      PendingShrinks(DefinedNames(g), acc, acc + ElementNames(nc));
      WalkSound(g, c, acc + ElementNames(nc));
      assert ElementNames(nc) <= Names(Tokens(p)) by {
        forall n | n in ElementNames(nc) ensures n in Names(Tokens(p)) {
          assert ElementToken(n) in Tokens(p);
        }
      }
      NamesMonotonic(Tokens(c), Tokens(p));
    case Attribute(_, c) => WalkSound(g, c, acc);
    case Group(cs) => WalkSeqSound(g, cs, acc);
    case Interleave(cs) => WalkSeqSound(g, cs, acc);
    case Choice(cs) => WalkSeqSound(g, cs, acc);
    case OneOrMore(c) => WalkSound(g, c, acc);
    case ZeroOrMore(c) => WalkSound(g, c, acc);
    case Optional(c) => WalkSound(g, c, acc);
    case List(c) => WalkSound(g, c, acc);
    case Mixed(c) => WalkSound(g, c, acc);
    case Ref(n) => WalkRefSound(g, n, acc);
    case Empty =>
    case Text =>
    case NotAllowed =>
    case Data(_, _, _, _) =>
    case Value(_, _, _) =>
  }

  lemma {:induction false} WalkRefSound(g: Grammar, n: string, acc: set<string>)
    ensures Walk(g, Ref(n), acc) <= acc + {n} + Names(DefinesTokens(g.defines))
    decreases |DefinedNames(g) - acc|, 0
  {
    if n !in acc {
      match Lookup(g, n)
      case None =>
      case Some(b) =>
        PendingDrops(DefinedNames(g), acc, n);
        WalkSound(g, b, acc + {n});
        LookupTokens(g.defines, n);
        NamesMonotonic(Tokens(b), DefinesTokens(g.defines));
    }
  }

  lemma {:induction false} WalkSeqSound(g: Grammar, ps: seq<Pattern>, acc: set<string>)
    ensures WalkSeq(g, ps, acc) <= acc + Names(TokensSeq(ps)) + Names(DefinesTokens(g.defines))
    decreases |DefinedNames(g) - acc|, SizeSeq(ps), 2
  {
    if |ps| > 0 {
      var first := Walk(g, ps[0], acc);
      WalkSound(g, ps[0], acc);
      PendingShrinks(DefinedNames(g), acc, first);
      WalkSeqSound(g, ps[1..], first);
      NamesMonotonic(Tokens(ps[0]), TokensSeq(ps));
      NamesMonotonic(TokensSeq(ps[1..]), TokensSeq(ps));
    }
  }

  /** A set of names closed under following definitions: whenever it holds
      a defined name, it holds everything that definition mentions. */
  predicate ClosedUnderDefinitions(g: Grammar, names: set<string>) {
    forall n :: n in names && Lookup(g, n).Some? ==> Names(Tokens(Lookup(g, n).value)) <= names
  }

  /** The walk stays inside every set that holds what the pattern mentions
      and is closed under following definitions: it records nothing
      unreachable from the pattern. */
  lemma {:induction false} WalkWithin(g: Grammar, p: Pattern, acc: set<string>, names: set<string>)
    requires Names(Tokens(p)) <= names && ClosedUnderDefinitions(g, names)
    ensures Walk(g, p, acc) <= acc + names
    decreases |DefinedNames(g) - acc|, Size(p), 1
  {
    match p
    case Element(nc, c) =>
      PendingShrinks(DefinedNames(g), acc, acc + ElementNames(nc));
      assert ElementNames(nc) <= Names(Tokens(p)) by {
        forall n | n in ElementNames(nc) ensures n in Names(Tokens(p)) {
          assert ElementToken(n) in Tokens(p);
        }
      }
      NamesMonotonic(Tokens(c), Tokens(p));
      WalkWithin(g, c, acc + ElementNames(nc), names);
    case Attribute(_, c) => WalkWithin(g, c, acc, names);
    case Group(cs) => WalkSeqWithin(g, cs, acc, names);
    case Interleave(cs) => WalkSeqWithin(g, cs, acc, names);
    case Choice(cs) => WalkSeqWithin(g, cs, acc, names);
    case OneOrMore(c) => WalkWithin(g, c, acc, names);
    case ZeroOrMore(c) => WalkWithin(g, c, acc, names);
    case Optional(c) => WalkWithin(g, c, acc, names);
    case List(c) => WalkWithin(g, c, acc, names);
    case Mixed(c) => WalkWithin(g, c, acc, names);
    case Ref(n) =>
      assert RefToken(n) in Tokens(p);
      WalkRefWithin(g, n, acc, names);
    case Empty =>
    case Text =>
    case NotAllowed =>
    case Data(_, _, _, _) =>
    case Value(_, _, _) =>
  }

  lemma {:induction false} WalkRefWithin(g: Grammar, n: string, acc: set<string>, names: set<string>)
    requires n in names && ClosedUnderDefinitions(g, names)
    ensures Walk(g, Ref(n), acc) <= acc + names
    decreases |DefinedNames(g) - acc|, 0
  {
    if n !in acc {
      match Lookup(g, n)
      case None =>
      case Some(b) =>
        PendingDrops(DefinedNames(g), acc, n);
        WalkWithin(g, b, acc + {n}, names);
    }
  }

  lemma {:induction false} WalkSeqWithin(g: Grammar, ps: seq<Pattern>, acc: set<string>, names: set<string>)
    requires Names(TokensSeq(ps)) <= names && ClosedUnderDefinitions(g, names)
    ensures WalkSeq(g, ps, acc) <= acc + names
    decreases |DefinedNames(g) - acc|, SizeSeq(ps), 2
  {
    if |ps| > 0 {
      var first := Walk(g, ps[0], acc);
      NamesMonotonic(Tokens(ps[0]), TokensSeq(ps));
      NamesMonotonic(TokensSeq(ps[1..]), TokensSeq(ps));
      WalkWithin(g, ps[0], acc, names);
      PendingShrinks(DefinedNames(g), acc, first);
      WalkSeqWithin(g, ps[1..], first, names);
    }
  }

  /** Following a reference: a name that was newly recorded, is defined,
      and is not also the name of an element anywhere, had its definition
      walked, so everything that definition mentions is recorded too. */
  lemma {:induction false} WalkClosed(g: Grammar, p: Pattern, acc: set<string>, n: string)
    requires n in Walk(g, p, acc) && n !in acc
    requires ElementToken(n) !in Tokens(p) && ElementToken(n) !in DefinesTokens(g.defines)
    requires Lookup(g, n).Some?
    ensures Names(Tokens(Lookup(g, n).value)) <= Walk(g, p, acc)
    decreases |DefinedNames(g) - acc|, Size(p), 1
  {
    match p
    case Element(nc, c) =>
      assert n in ElementNames(nc) ==> ElementToken(n) in Tokens(p);
      PendingShrinks(DefinedNames(g), acc, acc + ElementNames(nc));
      WalkClosed(g, c, acc + ElementNames(nc), n);
    case Attribute(_, c) => WalkClosed(g, c, acc, n);
    case Group(cs) => WalkSeqClosed(g, cs, acc, n);
    case Interleave(cs) => WalkSeqClosed(g, cs, acc, n);
    case Choice(cs) => WalkSeqClosed(g, cs, acc, n);
    case OneOrMore(c) => WalkClosed(g, c, acc, n);
    case ZeroOrMore(c) => WalkClosed(g, c, acc, n);
    case Optional(c) => WalkClosed(g, c, acc, n);
    case List(c) => WalkClosed(g, c, acc, n);
    case Mixed(c) => WalkClosed(g, c, acc, n);
    case Ref(m) => WalkRefClosed(g, m, acc, n);
  }

  lemma {:induction false} WalkRefClosed(g: Grammar, m: string, acc: set<string>, n: string)
    requires n in Walk(g, Ref(m), acc) && n !in acc
    requires ElementToken(n) !in DefinesTokens(g.defines)
    requires Lookup(g, n).Some?
    ensures Names(Tokens(Lookup(g, n).value)) <= Walk(g, Ref(m), acc)
    decreases |DefinedNames(g) - acc|, 0
  {
    var b := Lookup(g, m).value;
    PendingDrops(DefinedNames(g), acc, m);
    if m == n {
      WalkCovers(g, b, acc + {n});
    } else {
      LookupTokens(g.defines, m);
      WalkClosed(g, b, acc + {m}, n);
    }
  }

  lemma {:induction false} WalkSeqClosed(g: Grammar, ps: seq<Pattern>, acc: set<string>, n: string)
    requires n in WalkSeq(g, ps, acc) && n !in acc
    requires ElementToken(n) !in TokensSeq(ps) && ElementToken(n) !in DefinesTokens(g.defines)
    requires Lookup(g, n).Some?
    ensures Names(Tokens(Lookup(g, n).value)) <= WalkSeq(g, ps, acc)
    decreases |DefinedNames(g) - acc|, SizeSeq(ps), 2
  {
    var first := Walk(g, ps[0], acc);
    PendingShrinks(DefinedNames(g), acc, first);
    if n in first {
      WalkClosed(g, ps[0], acc, n);
    } else {
      assert Size(ps[0]) >= 1 && SizeSeq(ps) == Size(ps[0]) + SizeSeq(ps[1..]);
      WalkSeqClosed(g, ps[1..], first, n);
    }
  }

  /** A parsed content model: the wrapping grammar and the pattern of its
      `_fragment` definition, when one was found. */
  datatype Model = Model(grammar: Grammar, root: Option<Pattern>)

  /** `getReferences`: walk the root, or the grammar's start when there is
      no root; a grammar without a start fails as the walker would. */
  function References(m: Model): (r: Result<set<string>>)
    ensures r.Failure? <==> m.root.None? && m.grammar.start.None?
    ensures r.Failure? ==> r.error == NullValue
  {
    match m.root
    case Some(p) => Success(Walk(m.grammar, p, {}))
    case None =>
      match m.grammar.start
      case Some(s) => Success(Walk(m.grammar, s, {}))
      case None => Failure(NullValue)
  }

  /** The pattern `getReferences` starts from. */
  function Entry(m: Model): Option<Pattern> {
    if m.root.Some? then m.root else m.grammar.start
  }

  /** The references of a content model lie inside every set that holds
      what the entry pattern mentions and is closed under following
      definitions: only names reachable from the entry are recorded. */
  lemma ReferencesWithinReachable(m: Model, names: set<string>)
    ensures Entry(m).Some? && Names(Tokens(Entry(m).value)) <= names && ClosedUnderDefinitions(m.grammar, names)
            ==> References(m).Success? && References(m).value <= names
  {
    if Entry(m).Some? && Names(Tokens(Entry(m).value)) <= names && ClosedUnderDefinitions(m.grammar, names) {
      WalkWithin(m.grammar, Entry(m).value, {}, names);
    }
  }

  /** The references of a content model: everything its entry pattern
      mentions, nothing that neither it nor a definition mentions, and the
      mentions of every definition reached by name (unless that name is
      also an element name). */
  lemma ReferencesReach(m: Model, n: string)
    requires References(m).Success?
    ensures Names(Tokens(Entry(m).value)) <= References(m).value
    ensures References(m).value <= Names(Tokens(Entry(m).value)) + Names(DefinesTokens(m.grammar.defines))
    ensures n in References(m).value && Lookup(m.grammar, n).Some?
            && ElementToken(n) !in Tokens(Entry(m).value) + DefinesTokens(m.grammar.defines)
            ==> Names(Tokens(Lookup(m.grammar, n).value)) <= References(m).value
  {
    var e := Entry(m).value;
    WalkCovers(m.grammar, e, {});
    WalkSound(m.grammar, e, {});
    if n in References(m).value && Lookup(m.grammar, n).Some?
       && ElementToken(n) !in Tokens(e) + DefinesTokens(m.grammar.defines) {
      WalkClosed(m.grammar, e, {}, n);
    }
  }

  /** A definition that refers to itself is walked once. */
  lemma SelfReferenceTerminates()
    ensures var body := Element(Name(QName(TeiNs, "p")), Ref("a"));
            var g := Grammar([Define("a", Some(body))], Some(Ref("a")));
            References(Model(g, None)) == Success({"a", "p"})
  {
    var body := Element(Name(QName(TeiNs, "p")), Ref("a"));
    var g := Grammar([Define("a", Some(body))], Some(Ref("a")));
    assert Lookup(g, "a") == Some(body);
    assert ElementNames(Name(QName(TeiNs, "p"))) == {"p"};
    assert Walk(g, Ref("a"), {"a", "p"}) == {"a", "p"};
    assert {"a"} + {"p"} == {"a", "p"};
    assert Walk(g, body, {"a"}) == {"a", "p"};
    assert {} + {"a"} == {"a"};
    assert Walk(g, Ref("a"), {}) == {"a", "p"};
  }

  /** Element names and reference names share one set: an element named
      like a definition, met first, stops that definition from being walked;
      and names outside the TEI namespace are not recorded. */
  lemma ElementNameShadowsReference()
    ensures var g := Grammar([Define("b", Some(Element(Name(QName("", "c")), Empty)))], None);
            var p := Group([Element(Name(QName("", "b")), Empty), Ref("b"),
                            Element(Name(QName("urn:other", "d")), Empty)]);
            Walk(g, p, {}) == {"b"}
  {
    var g := Grammar([Define("b", Some(Element(Name(QName("", "c")), Empty)))], None);
    var e1 := Element(Name(QName("", "b")), Empty);
    var e3 := Element(Name(QName("urn:other", "d")), Empty);
    assert ElementNames(Name(QName("", "b"))) == {"b"};
    assert ElementNames(Name(QName("urn:other", "d"))) == {} by {
      assert !Qualifies(QName("urn:other", "d"));
    }
    var p := Group([e1, Ref("b"), e3]);
    assert Walk(g, e1, {}) == {"b"};
    assert Walk(g, Ref("b"), {"b"}) == {"b"};
    assert Walk(g, e3, {"b"}) == {"b"};
    assert [e1, Ref("b"), e3][1..] == [Ref("b"), e3];
    assert [Ref("b"), e3][1..] == [e3];
  }

  /** The walker of `parse`: the target of every `_fragment` reference whose
      definition exists, in document order; references are not followed. */
  function FragmentTargets(g: Grammar, p: Pattern): seq<Option<Pattern>>
    decreases p, 1
  {
    match p
    case Element(_, c) => FragmentTargets(g, c)
    case Attribute(_, c) => FragmentTargets(g, c)
    case Group(cs) => FragmentTargetsSeq(g, cs)
    case Interleave(cs) => FragmentTargetsSeq(g, cs)
    case Choice(cs) => FragmentTargetsSeq(g, cs)
    case OneOrMore(c) => FragmentTargets(g, c)
    case ZeroOrMore(c) => FragmentTargets(g, c)
    case Optional(c) => FragmentTargets(g, c)
    case List(c) => FragmentTargets(g, c)
    case Mixed(c) => FragmentTargets(g, c)
    case Ref(n) => if n in DefinedNames(g) && n == FragmentDefine then [Lookup(g, n)] else []
    case _ => []
  }

  function FragmentTargetsSeq(g: Grammar, ps: seq<Pattern>): seq<Option<Pattern>>
    decreases ps, 0
  {
    if |ps| == 0 then [] else FragmentTargets(g, ps[0]) + FragmentTargetsSeq(g, ps[1..])
  }

  /** `parse` after the RELAX NG parser: the root is the first target found
      from the start, or none. */
  function RootOf(g: Grammar): (r: Result<Option<Pattern>>)
    ensures r.Failure? <==> g.start.None?
  {
    match g.start
    case None => Failure(NullValue)
    case Some(s) =>
      var targets := FragmentTargets(g, s);
      Success(if |targets| > 0 then targets[0] else None)
  }

  function Parse(g: Grammar): (r: Result<Model>)
    ensures r.Success? ==> r.value.grammar == g
  {
    var root :- RootOf(g);
    Success(Model(g, root))
  }

  /** Every target found is the `_fragment` definition's pattern, and one is
      found exactly when the pattern refers to an existing `_fragment`. */
  lemma {:induction false} FragmentTargetsCharacterized(g: Grammar, p: Pattern)
    ensures forall i :: 0 <= i < |FragmentTargets(g, p)| ==> FragmentTargets(g, p)[i] == Lookup(g, FragmentDefine)
    ensures |FragmentTargets(g, p)| > 0 <==> RefToken(FragmentDefine) in Tokens(p) && FragmentDefine in DefinedNames(g)
    decreases p, 1
  {
    match p
    case Element(nc, c) =>
      FragmentTargetsCharacterized(g, c);
    case Attribute(_, c) => FragmentTargetsCharacterized(g, c);
    case Group(cs) => FragmentTargetsSeqCharacterized(g, cs);
    case Interleave(cs) => FragmentTargetsSeqCharacterized(g, cs);
    case Choice(cs) => FragmentTargetsSeqCharacterized(g, cs);
    case OneOrMore(c) => FragmentTargetsCharacterized(g, c);
    case ZeroOrMore(c) => FragmentTargetsCharacterized(g, c);
    case Optional(c) => FragmentTargetsCharacterized(g, c);
    case List(c) => FragmentTargetsCharacterized(g, c);
    case Mixed(c) => FragmentTargetsCharacterized(g, c);
    case Ref(n) =>
    case Empty =>
    case Text =>
    case NotAllowed =>
    case Data(_, _, _, _) =>
    case Value(_, _, _) =>
  }

  lemma {:induction false} FragmentTargetsSeqCharacterized(g: Grammar, ps: seq<Pattern>)
    ensures forall i :: 0 <= i < |FragmentTargetsSeq(g, ps)| ==> FragmentTargetsSeq(g, ps)[i] == Lookup(g, FragmentDefine)
    ensures |FragmentTargetsSeq(g, ps)| > 0 <==> RefToken(FragmentDefine) in TokensSeq(ps) && FragmentDefine in DefinedNames(g)
    decreases ps, 0
  {
    if |ps| > 0 {
      FragmentTargetsCharacterized(g, ps[0]);
      FragmentTargetsSeqCharacterized(g, ps[1..]);
    }
  }

  /** The root is the `_fragment` pattern when the start mentions that
      reference; the wrapping grammar's start is exactly such a reference. */
  lemma RootOfCharacterized(g: Grammar)
    requires g.start.Some?
    ensures RootOf(g) == Success(if RefToken(FragmentDefine) in Tokens(g.start.value)
                                 then Lookup(g, FragmentDefine) else None)
    ensures g.start == Some(Ref(FragmentDefine)) ==> RootOf(g) == Success(Lookup(g, FragmentDefine))
  {
    FragmentTargetsCharacterized(g, g.start.value);
    if FragmentDefine !in DefinedNames(g) {
      assert Lookup(g, FragmentDefine).None?;
    }
  }

  /** The RELAX NG elements written around the fragment. */
  function RngStart(local: string, attributes: seq<Attr>): Event {
    StartElement(StartTag(QName(RelaxNgNs, local), attributes))
  }

  function RngEnd(local: string): Event {
    EndElement(QName(RelaxNgNs, local))
  }

  const FragmentNameAttribute: seq<Attr> := [Attr(Unqualified("name"), FragmentDefine)]

  const Prologue: seq<Event> :=
    [StartDocument, RngStart("grammar", []), RngStart("define", FragmentNameAttribute)]

  const Epilogue: seq<Event> :=
    [RngEnd("define"), RngStart("start", []), RngStart("ref", FragmentNameAttribute),
     RngEnd("ref"), RngEnd("start"), RngEnd("grammar"), EndDocument]

  /** The end tag of the TEI element holding the content model. */
  predicate ClosesContainer(e: Event, containerName: string) {
    EndHasName(e, Some(TeiNs), containerName)
  }

  /** The events copied into the `_fragment` definition: everything up to,
      not including, the container's end tag, or everything if it never comes. */
  function FragmentBody(events: seq<Event>, containerName: string): (r: seq<Event>)
    ensures r <= events
    ensures forall i :: 0 <= i < |r| ==> !ClosesContainer(r[i], containerName)
    ensures |r| < |events| ==> ClosesContainer(events[|r|], containerName)
    decreases |events|
  {
    if |events| == 0 || ClosesContainer(events[0], containerName) then []
    else [events[0]] + FragmentBody(events[1..], containerName)
  }

  /** The document handed to the RELAX NG parser. */
  function WrapFragment(events: seq<Event>, containerName: string): seq<Event> {
    Prologue + FragmentBody(events, containerName) + Epilogue
  }

  /** The copied events, read back out of a wrapped document. */
  function Unwrap(document: seq<Event>): seq<Event> {
    if |document| >= |Prologue| + |Epilogue| then document[|Prologue|..|document| - |Epilogue|] else []
  }

  /** The wrapped document opens the grammar and the `_fragment` definition,
      holds exactly the copied events, and closes with the start reference;
      events after the container's end tag never reach it. */
  lemma WrapFragmentRoundTrip(events: seq<Event>, more: seq<Event>, containerName: string)
    ensures Unwrap(WrapFragment(events, containerName)) == FragmentBody(events, containerName)
    ensures WrapFragment(events, containerName)[..|Prologue|] == Prologue
    ensures (exists i :: 0 <= i < |events| && ClosesContainer(events[i], containerName)) ==>
              WrapFragment(events + more, containerName) == WrapFragment(events, containerName)
  {
    var doc := WrapFragment(events, containerName);
    assert doc[|Prologue|..|doc| - |Epilogue|] == FragmentBody(events, containerName);
    if exists i :: 0 <= i < |events| && ClosesContainer(events[i], containerName) {
      FragmentBodyIgnoresRest(events, more, containerName);
    }
  }

  lemma {:induction false} FragmentBodyIgnoresRest(events: seq<Event>, more: seq<Event>, containerName: string)
    requires exists i :: 0 <= i < |events| && ClosesContainer(events[i], containerName)
    ensures FragmentBody(events + more, containerName) == FragmentBody(events, containerName)
    decreases |events|
  {
    assert (events + more)[0] == events[0];
    if !ClosesContainer(events[0], containerName) {
      var i :| 0 <= i < |events| && ClosesContainer(events[i], containerName);
      assert events[1..][i - 1] == events[i];
      assert (events + more)[1..] == events[1..] + more;
      FragmentBodyIgnoresRest(events[1..], more, containerName);
    }
  }

  /** `toString`: the root pattern, or the whole grammar when there is no
      root. A root pattern has no namespace declarations. */
  function ToString(m: Model): (r: Result<CompactSerializer.CompactGrammar>)
    ensures m.root.Some? && r.Success? ==> r.value.declarations == {}
  {
    match m.root
    case Some(p) =>
      var text :- CompactSerializer.PatternToString(p);
      Success(CompactSerializer.CompactGrammar({}, text))
    case None => CompactSerializer.RenderGrammar(m.grammar)
  }

  /** A root pattern renders exactly when it is supported; without a root
      the grammar renders exactly when it does on its own, so a model with
      neither a root nor a start fails on the null start. */
  lemma ToStringSucceedsIff(m: Model)
    ensures m.root.Some? ==> (ToString(m).Success? <==> CompactSerializer.Supported(m.root.value))
    ensures m.root.None? ==>
              (ToString(m).Success? <==>
                 && m.grammar.start.Some?
                 && CompactSerializer.DefinesSupported(m.grammar.defines)
                 && CompactSerializer.Supported(m.grammar.start.value)
                 && (forall x :: x in NamespaceCollector.GrammarNamespaces(m.grammar) ==> CompactSerializer.Quotable(x)))
    ensures m.root.None? && m.grammar.start.None? ==> ToString(m) == Failure(NullValue)
  {
    if m.root.Some? {
      CompactSerializer.RenderSucceedsIff(m.root.value, map[]);
    } else {
      CompactSerializer.RenderGrammarSucceedsIff(m.grammar);
    }
  }
}
