/** The RELAX NG pattern tree the content-model tools work on (the
    "digested" patterns of the RELAX NG parser): name classes, patterns and
    a grammar whose `Ref` nodes are resolved by name through its definitions. */
module Patterns {
  import opened Common
  import opened Xml

  datatype NameClass =
    | Name(qname: QName)
    | NsName(ns: string, nsExcept: Option<NameClass>)
    | AnyName(anyExcept: Option<NameClass>)
    | NameChoice(left: NameClass, right: NameClass)
    | NullName

  datatype Param = Param(name: string, value: string)

  datatype Pattern =
    | Element(name: NameClass, child: Pattern)
    | Attribute(name: NameClass, child: Pattern)
    | Group(children: seq<Pattern>)
    | Interleave(children: seq<Pattern>)
    | Choice(children: seq<Pattern>)
    | OneOrMore(child: Pattern)
    | ZeroOrMore(child: Pattern)
    | Optional(child: Pattern)
    | List(child: Pattern)
    | Mixed(child: Pattern)
    | Ref(refName: string)
    | Empty
    | Text
    | NotAllowed
    | Data(library: string, dataType: Option<string>, params: seq<Param>, except: Option<Pattern>)
    | Value(library: string, dataType: Option<string>, value: string)

  /** A `<define>`; its pattern may be null. */
  datatype Define = Define(name: string, body: Option<Pattern>)

  /** A grammar: its definitions in iteration order and its optional start. */
  datatype Grammar = Grammar(defines: seq<Define>, start: Option<Pattern>)

  function DefinedNames(g: Grammar): set<string> {
    set d | d in g.defines :: d.name
  }

  /** The pattern a `Ref` named `n` reaches: the body of the first definition
      with that name, or `None` when there is none or its pattern is null. */
  function Lookup(g: Grammar, n: string): (r: Option<Pattern>)
    ensures r.Some? ==> n in DefinedNames(g)
    ensures r.Some? ==> exists i :: 0 <= i < |g.defines| && g.defines[i] == Define(n, r)
  {
    LookupIn(g.defines, n)
  }

  function LookupIn(ds: seq<Define>, n: string): (r: Option<Pattern>)
    ensures r.Some? ==> exists i :: 0 <= i < |ds| && ds[i] == Define(n, r)
    decreases |ds|
  {
    if |ds| == 0 then None
    else if ds[0].name == n then ds[0].body
    else
      var r := LookupIn(ds[1..], n);
      assert forall i :: 0 < i < |ds| ==> ds[i] == ds[1..][i - 1];
      r
  }

  /** Node count, the structural part of the termination measures. */
  function Size(p: Pattern): nat
    decreases p, 1
  {
    match p
    case Element(_, c) => 1 + Size(c)
    case Attribute(_, c) => 1 + Size(c)
    case Group(cs) => 1 + SizeSeq(cs)
    case Interleave(cs) => 1 + SizeSeq(cs)
    case Choice(cs) => 1 + SizeSeq(cs)
    case OneOrMore(c) => 1 + Size(c)
    case ZeroOrMore(c) => 1 + Size(c)
    case Optional(c) => 1 + Size(c)
    case List(c) => 1 + Size(c)
    case Mixed(c) => 1 + Size(c)
    case Data(_, _, _, e) => 1 + (if e.Some? then Size(e.value) else 0)
    case _ => 1
  }

  function SizeSeq(ps: seq<Pattern>): nat
    decreases ps, 0
  {
    if |ps| == 0 then 0 else Size(ps[0]) + SizeSeq(ps[1..])
  }

  /** The pattern is one of the one-child wrappers. */
  predicate IsUnary(p: Pattern) {
    p.Element? || p.Attribute? || p.OneOrMore? || p.ZeroOrMore? || p.Optional? || p.List? || p.Mixed?
  }

  predicate IsContainer(p: Pattern) {
    p.Group? || p.Interleave? || p.Choice?
  }
}
