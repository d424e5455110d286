/** The namespace collector: gathers every namespace URI named by an element
    or attribute name class (and inside data exceptions) into a sorted set,
    then extends a prefix mapping with fresh `ns_N` prefixes for them. */
module NamespaceCollector {
  import opened Common
  import opened Xml
  import opened Patterns
  import opened LexOrder
  import Strings

  /** Namespaces visited in a name class, in visit order. A plain name
      contributes its namespace only when it is not empty. */
  function NameClassNamespaces(nc: NameClass): seq<string> {
    match nc
    case Name(q) => if q.ns != "" then [q.ns] else []
    case NsName(ns, e) => [ns] + (if e.Some? then NameClassNamespaces(e.value) else [])
    case AnyName(e) => if e.Some? then NameClassNamespaces(e.value) else []
    case NameChoice(a, b) => NameClassNamespaces(a) + NameClassNamespaces(b)
    case NullName => []
  }

  /** Namespaces visited in a pattern. A `Ref` is not followed, and of a data
      pattern only the `except` part is visited. */
  function PatternNamespaces(p: Pattern): seq<string>
    decreases p, 1
  {
    match p
    case Element(nc, c) => NameClassNamespaces(nc) + PatternNamespaces(c)
    case Attribute(nc, c) => NameClassNamespaces(nc) + PatternNamespaces(c)
    case Group(cs) => PatternsNamespaces(cs)
    case Interleave(cs) => PatternsNamespaces(cs)
    case Choice(cs) => PatternsNamespaces(cs)
    case OneOrMore(c) => PatternNamespaces(c)
    case ZeroOrMore(c) => PatternNamespaces(c)
    case Optional(c) => PatternNamespaces(c)
    case List(c) => PatternNamespaces(c)
    case Mixed(c) => PatternNamespaces(c)
    case Data(_, _, _, e) => if e.Some? then PatternNamespaces(e.value) else []
    case _ => []
  }

  function PatternsNamespaces(ps: seq<Pattern>): seq<string>
    decreases ps, 0
  {
    if |ps| == 0 then [] else PatternNamespaces(ps[0]) + PatternsNamespaces(ps[1..])
  }

  /** Every definition whose pattern is not null, in order, then the start pattern. */
  function GrammarNamespaces(g: Grammar): seq<string> {
    DefinesNamespaces(g.defines) + (if g.start.Some? then PatternNamespaces(g.start.value) else [])
  }

  function DefinesNamespaces(ds: seq<Define>): seq<string>
    decreases |ds|
  {
    if |ds| == 0 then []
    else (if ds[0].body.Some? then PatternNamespaces(ds[0].body.value) else []) + DefinesNamespaces(ds[1..])
  }

  /** The name-class visitors: what each kind of name class contributes. */
  lemma NameClassContribution(nc: NameClass, x: string)
    ensures nc.Name? ==> (x in NameClassNamespaces(nc) <==> nc.qname.ns != "" && x == nc.qname.ns)
    ensures nc.NsName? ==> (x in NameClassNamespaces(nc) <==>
                             x == nc.ns || (nc.nsExcept.Some? && x in NameClassNamespaces(nc.nsExcept.value)))
    ensures nc.AnyName? ==> (x in NameClassNamespaces(nc) <==>
                              nc.anyExcept.Some? && x in NameClassNamespaces(nc.anyExcept.value))
    ensures nc.NameChoice? ==> (x in NameClassNamespaces(nc) <==>
                                 x in NameClassNamespaces(nc.left) || x in NameClassNamespaces(nc.right))
    ensures nc.NullName? ==> x !in NameClassNamespaces(nc)
  {
  }

  /** A reference, a value and the empty/text/notAllowed leaves name no
      namespace, whatever the grammar defines. */
  lemma LeavesContributeNothing(p: Pattern)
    requires p.Ref? || p.Value? || p.Empty? || p.Text? || p.NotAllowed? || (p.Data? && p.except.None?)
    ensures PatternNamespaces(p) == []
  {
  }

  ghost predicate StrictlySorted(xs: seq<string>) {
    forall i, j :: 0 <= i < j < |xs| ==> Less(xs[i], xs[j])
  }

  /** `TreeSet.add`: insert into a strictly sorted sequence. */
  function Insert(xs: seq<string>, x: string): (r: seq<string>)
    requires StrictlySorted(xs)
    ensures StrictlySorted(r)
    ensures forall y :: y in r <==> y in xs || y == x
    decreases |xs|
  {
    if |xs| == 0 then [x]
    else if x == xs[0] then xs
    else if Less(x, xs[0]) then
      assert forall j :: 0 <= j < |xs| ==> Less(x, xs[j]) by {
        forall j | 0 <= j < |xs| ensures Less(x, xs[j]) {
          if j > 0 { LessTransitive(x, xs[0], xs[j]); }
        }
      }
      [x] + xs
    else
      LessTotal(x, xs[0]);
      var t := Insert(xs[1..], x);
      assert forall j :: 0 <= j < |t| ==> Less(xs[0], t[j]) by {
        forall j | 0 <= j < |t| ensures Less(xs[0], t[j]) {
          assert t[j] in t;
          if t[j] != x {
            var k :| 0 <= k < |xs[1..]| && xs[1..][k] == t[j];
            assert xs[k + 1] == t[j];
          }
        }
      }
      [xs[0]] + t
  }

  /** The `TreeSet` built by adding `xs` in order. */
  function SortedSetOf(xs: seq<string>): (r: seq<string>)
    ensures StrictlySorted(r)
    ensures forall y :: y in r <==> y in xs
    decreases |xs|
  {
    if |xs| == 0 then [] else Insert(SortedSetOf(xs[..|xs| - 1]), xs[|xs| - 1])
  }

  /** `NamespaceCollector.on(grammar).namespaces`. After the definitions
      the walker goes on to the start pattern, so a grammar without a
      start fails as the walker would. */
  function Collect(g: Grammar): (r: Result<seq<string>>)
    ensures r.Failure? <==> g.start.None?
    ensures r.Failure? ==> r.error == NullValue
    ensures r.Success? ==> StrictlySorted(r.value)
    ensures r.Success? ==> forall x :: x in r.value <==> x in GrammarNamespaces(g)
  {
    if g.start.None? then Failure(NullValue) else Success(SortedSetOf(GrammarNamespaces(g)))
  }

  /** A strictly sorted sequence has no duplicates. */
  lemma SortedDistinct(xs: seq<string>)
    requires StrictlySorted(xs)
    ensures Distinct(xs)
  {
    forall i, j | 0 <= i < j < |xs| ensures xs[i] != xs[j] {
      LessIrreflexive(xs[i]);
    }
  }

  predicate Distinct(xs: seq<string>) {
    forall i, j :: 0 <= i < j < |xs| ==> xs[i] != xs[j]
  }

  /** The prefix the collector invents for the `i`-th new namespace. */
  function Prefix(i: nat): string {
    "ns_" + Strings.Decimal(i)
  }

  lemma PrefixInjective(i: nat, j: nat)
    ensures Prefix(i) == Prefix(j) ==> i == j
  {
    if Prefix(i) == Prefix(j) {
      assert Prefix(i)[3..] == Strings.Decimal(i);
      assert Prefix(j)[3..] == Strings.Decimal(j);
      Strings.DecimalInjective(i, j);
    }
  }

  /** How many of `xs` are not yet keys of `m`. */
  function CountMissing(xs: seq<string>, m: map<string, string>): nat
    decreases |xs|
  {
    if |xs| == 0 then 0 else (if xs[0] in m then 0 else 1) + CountMissing(xs[1..], m)
  }

  /** The loop of `toMapping`: namespaces already mapped keep their prefix,
      every other one gets `ns_<counter>` and advances the counter. */
  function Assign(nss: seq<string>, m: map<string, string>, counter: nat): (r: map<string, string>)
    ensures forall k :: k in m ==> k in r && r[k] == m[k]
    decreases |nss|
  {
    if |nss| == 0 then m
    else if nss[0] in m then Assign(nss[1..], m, counter)
    else Assign(nss[1..], m[nss[0] := Prefix(counter)], counter + 1)
  }

  /** With distinct namespaces, the `p`-th one, if unmapped, receives the
      counter value advanced once per unmapped namespace before it. */
  lemma {:induction false} AssignFreshPrefix(nss: seq<string>, m: map<string, string>, counter: nat, p: nat)
    requires Distinct(nss) && p < |nss| && nss[p] !in m
    ensures nss[p] in Assign(nss, m, counter)
    ensures Assign(nss, m, counter)[nss[p]] == Prefix(counter + CountMissing(nss[..p], m))
    decreases |nss|
  {
    AssignKeys(nss, m, counter);
    var x, rest := nss[0], nss[1..];
    if p == 0 {
      assert CountMissing(nss[..0], m) == 0;
      assert Assign(nss, m, counter) == Assign(rest, m[x := Prefix(counter)], counter + 1);
    } else {
      var prefix := rest[..p - 1];
      DistinctTail(nss, p);
      if x in m {
        assert Assign(nss, m, counter) == Assign(rest, m, counter);
        AssignFreshPrefix(rest, m, counter, p - 1);
      } else {
        var m' := m[x := Prefix(counter)];
        assert Assign(nss, m, counter) == Assign(rest, m', counter + 1);
        AssignFreshPrefix(rest, m', counter + 1, p - 1);
        CountMissingSame(prefix, m, m');
      }
    }
  }

  lemma DistinctTail(nss: seq<string>, p: nat)
    requires Distinct(nss) && 0 < p < |nss|
    ensures Distinct(nss[1..])
    ensures nss[p] == nss[1..][p - 1] && nss[..p] == [nss[0]] + nss[1..][..p - 1]
    ensures nss[p] != nss[0]
    ensures NotIn(nss[1..][..p - 1], nss[0])
  {
    var rest := nss[1..];
    assert Distinct(rest) by {
      forall i, j | 0 <= i < j < |rest| ensures rest[i] != rest[j] {
        assert rest[i] == nss[i + 1] && rest[j] == nss[j + 1];
      }
    }
    var prefix := rest[..p - 1];
    forall i | 0 <= i < |prefix| ensures prefix[i] != nss[0] {
      assert prefix[i] == nss[i + 1];
    }
  }

  /** Exactly the initial keys and the namespaces end up mapped. */
  lemma {:induction false} AssignKeys(nss: seq<string>, m: map<string, string>, counter: nat)
    ensures forall x :: x in Assign(nss, m, counter) <==> x in m || x in nss
    decreases |nss|
  {
    if |nss| > 0 {
      var m' := if nss[0] in m then m else m[nss[0] := Prefix(counter)];
      var c' := if nss[0] in m then counter else counter + 1;
      AssignKeys(nss[1..], m', c');
      assert forall x :: x in nss <==> x == nss[0] || x in nss[1..];
    }
  }

  predicate NotIn(xs: seq<string>, x: string) {
    forall i :: 0 <= i < |xs| ==> xs[i] != x
  }

  lemma {:induction false} CountMissingSame(xs: seq<string>, m: map<string, string>, m': map<string, string>)
    requires forall i :: 0 <= i < |xs| ==> (xs[i] in m <==> xs[i] in m')
    ensures CountMissing(xs, m) == CountMissing(xs, m')
    decreases |xs|
  {
    if |xs| > 0 {
      CountMissingSame(xs[1..], m, m');
    }
  }
  /** `toMapping(initial)` over the collected (sorted) namespaces. */
  function ToMapping(nss: seq<string>, initial: map<string, string>): (r: map<string, string>)
    requires Distinct(nss)
    ensures forall k :: k in initial ==> k in r && r[k] == initial[k]
    ensures forall x :: x in r <==> x in initial || x in nss
  {
    AssignKeys(nss, initial, 0);
    Assign(nss, initial, 0)
  }

  /** The `p`-th namespace, if new, is given `ns_N` where `N` counts the new
      namespaces before it: fresh prefixes follow the sorted order. */
  lemma ToMappingFreshPrefixes(nss: seq<string>, initial: map<string, string>, p: nat)
    requires Distinct(nss) && p < |nss| && nss[p] !in initial
    ensures ToMapping(nss, initial)[nss[p]] == Prefix(CountMissing(nss[..p], initial))
  {
    AssignFreshPrefix(nss, initial, 0, p);
  }

  lemma {:induction false} CountMissingGrows(xs: seq<string>, m: map<string, string>, p: nat, q: nat)
    requires p < q <= |xs| && xs[p] !in m
    ensures CountMissing(xs[..p], m) < CountMissing(xs[..q], m)
    decreases |xs|
  {
    assert xs[..q][1..] == xs[1..][..q - 1];
    if p > 0 {
      assert xs[..p][1..] == xs[1..][..p - 1];
      CountMissingGrows(xs[1..], m, p - 1, q - 1);
    } else {
      assert xs[..q][0] == xs[0];
    }
  }

  /** Two different namespaces missing from the initial mapping never share a prefix. */
  lemma FreshPrefixesDistinct(nss: seq<string>, initial: map<string, string>, a: string, b: string)
    requires Distinct(nss)
    requires a in nss && b in nss && a !in initial && b !in initial && a != b
    ensures ToMapping(nss, initial)[a] != ToMapping(nss, initial)[b]
  {
    var p :| 0 <= p < |nss| && nss[p] == a;
    var q :| 0 <= q < |nss| && nss[q] == b;
    if p < q {
      CountMissingGrows(nss, initial, p, q);
    } else {
      CountMissingGrows(nss, initial, q, p);
    }
    ToMappingFreshPrefixes(nss, initial, p);
    ToMappingFreshPrefixes(nss, initial, q);
    PrefixInjective(CountMissing(nss[..p], initial), CountMissing(nss[..q], initial));
  }

  /** The mapping the compact serializer prints for a grammar. */
  function GrammarMapping(g: Grammar): (r: Result<map<string, string>>)
    ensures r.Failure? <==> g.start.None?
    ensures r.Failure? ==> r.error == NullValue
    ensures r.Success? ==> forall x :: x in r.value <==> x in GrammarNamespaces(g)
  {
    var nss :- Collect(g);
    SortedDistinct(nss);
    Success(ToMapping(nss, map[]))
  }
}
