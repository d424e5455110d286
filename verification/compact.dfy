/** The RELAX NG compact-syntax serializer (ISO/IEC 19757-2, Annex C):
    renders a pattern or a grammar as text, or fails on the two constructs
    the serializer does not support, a foreign datatype library and a
    literal needing both quote characters. */
module CompactSerializer {
  import opened Common
  import opened Xml
  import opened Patterns
  import NamespaceCollector
  import Strings

  /** The compact syntax's reserved words that need a backslash when used
      as an identifier. */
  const Keywords: set<string> := {
    "attribute", "default", "datatypes", "div", "element", "empty",
    "external", "grammar", "include", "inherit", "list", "mixed", "namespace",
    "notAllowed", "parent", "start", "string", "text", "token"
  }

  /** The W3C XML Schema datatype library URI. */
  const XsdLibrary: string := "http://www.w3.org/2001/XMLSchema-datatypes"

  /** A definition or reference name, escaped when it is a keyword. */
  function Identifier(name: string): (r: string)
    ensures name in Keywords ==> r == "\\" + name
    ensures name !in Keywords ==> r == name
  {
    (if name in Keywords then "\\" else "") + name
  }

  /** Reading an identifier back: drop a leading backslash. */
  function Unescape(s: string): string {
    if |s| > 0 && s[0] == '\\' then s[1..] else s
  }

  /** An escaped identifier is never read as a keyword, and reading it back
      restores the name (names never start with a backslash). */
  lemma IdentifierRoundTrip(name: string)
    requires name == "" || name[0] != '\\'
    ensures Identifier(name) !in Keywords
    ensures Unescape(Identifier(name)) == name
    ensures |Identifier(name)| > 0 && Identifier(name)[0] == '\\' <==> name in Keywords
  {
    if name in Keywords {
      assert ("\\" + name)[1..] == name;
    }
  }

  /** The delimiter character chosen for a literal value. */
  function QuoteFor(value: string): char {
    if '\'' in value then '"' else '\''
  }

  /** The delimiter of a literal: the quote character, three times when the
      value holds a line break. */
  function Delimiter(value: string): (d: string)
    ensures |d| == (if '\n' in value then 3 else 1)
    ensures forall i :: 0 <= i < |d| ==> d[i] == QuoteFor(value)
  {
    if '\n' in value then [QuoteFor(value), QuoteFor(value), QuoteFor(value)] else [QuoteFor(value)]
  }

  /** A literal: the value between one or three copies of a quote character
      that the value does not contain. */
  function Literal(value: string): (r: Result<string>)
    ensures r.Failure? <==> '\'' in value && '"' in value
    ensures r.Failure? ==> r.error == Unsupported("FIXME Literal: " + value)
    ensures r.Success? ==> |r.value| > 0 && r.value[0] == QuoteFor(value) && QuoteFor(value) !in value
    ensures r.Success? ==> (r.value[0] == '"' <==> '\'' in value)
    ensures r.Success? ==> |r.value| == |value| + (if '\n' in value then 6 else 2)
  {
    if '\'' in value && '"' in value then
      Failure(Unsupported("FIXME Literal: " + value))
    else
      var delimiter := Delimiter(value);
      Success(delimiter + value + delimiter)
  }

  /** The form of a literal: the value between k opening and k closing
      delimiters, k being 3 exactly when the value holds a line break. */
  lemma LiteralForm(value: string)
    ensures Literal(value).Success? ==>
              var s, k := Literal(value).value, if '\n' in value then 3 else 1;
              && |s| == |value| + 2 * k
              && (forall i :: 0 <= i < k ==> s[i] == QuoteFor(value))
              && (forall i :: |s| - k <= i < |s| ==> s[i] == QuoteFor(value))
              && s[k..|s| - k] == value
  {
    if Literal(value).Success? {
      var d := Delimiter(value);
      var s := Literal(value).value;
      assert s == d + value + d;
      assert s[|d|..|s| - |d|] == value;
    }
  }

  /** `s` is the text between `k` leading and `k` trailing characters, each
      of them the delimiter `Literal` chooses for that text. */
  predicate Enclosed(s: string, k: nat)
    requires 2 * k <= |s|
  {
    var m := s[k..|s| - k];
    && |Delimiter(m)| == k
    && QuoteFor(m) !in m
    && s[..k] == Delimiter(m)
    && s[|s| - k..] == Delimiter(m)
  }

  /** Reading a literal back: the text between the delimiters, provided
      they are exactly the delimiters `Literal` would have written for it. */
  function Unquote(s: string): Option<string> {
    if 6 <= |s| && Enclosed(s, 3) then Some(s[3..|s| - 3])
    else if 2 <= |s| && Enclosed(s, 1) then Some(s[1..|s| - 1])
    else None
  }

  /** Every literal reads back as its value. */
  lemma LiteralRoundTrip(value: string)
    ensures Literal(value).Success? ==> Unquote(Literal(value).value) == Some(value)
  {
    if Literal(value).Success? {
      var s := Literal(value).value;
      var d := Delimiter(value);
      assert s == d + value + d;
      var k := |d|;
      assert s[k..|s| - k] == value && s[..k] == d && s[|s| - k..] == d;
      if k == 1 && 6 <= |s| {
        assert s[1] == value[0] != QuoteFor(value) == s[0];
      }
    }
  }

  /** Only literals read back: whatever `Unquote` accepts is exactly the
      literal of the value it yields, so wrong, mismatched or miscounted
      delimiters are rejected. */
  lemma UnquoteOnlyLiterals(s: string)
    ensures Unquote(s).Some? ==> Literal(Unquote(s).value) == Success(s)
  {
    if Unquote(s).Some? {
      var k := if 6 <= |s| && Enclosed(s, 3) then 3 else 1;
      var m := s[k..|s| - k];
      assert Unquote(s).value == m;
      assert s == s[..k] + m + s[|s| - k..];
      assert !('\'' in m && '"' in m);
    }
  }

  /** The datatype part of a data or value pattern: nothing when there is no
      type, always the `xsd:` prefix for the built-in or XML Schema library,
      and a failure for any other library. */
  function DataType(library: string, dataType: Option<string>): (r: Result<string>)
    ensures r.Failure? <==> dataType.Some? && library != "" && library != XsdLibrary
    ensures r.Failure? ==> r.error == Unsupported(library)
    ensures r.Success? && dataType.None? ==> r.value == ""
    ensures r.Success? && dataType.Some? ==> r.value == "xsd:" + dataType.value
  {
    match dataType
    case None => Success("")
    case Some(t) =>
      if library == "" || library == XsdLibrary then Success("xsd:" + t)
      else Failure(Unsupported(library))
  }

  /** The prefix printed for a namespace: its mapping entry, or `ns`. */
  function Namespace(ns: string, namespaces: map<string, string>): string {
    if ns in namespaces then namespaces[ns] else "ns"
  }

  function RenderNameClass(nc: NameClass, namespaces: map<string, string>): string {
    match nc
    case Name(q) =>
      if q.ns != "" then Namespace(q.ns, namespaces) + ":" + q.local else q.local
    case NsName(ns, e) =>
      Namespace(ns, namespaces) + ":*"
      + (if e.Some? then "-" + RenderNameClass(e.value, namespaces) else "")
    case AnyName(e) =>
      "*" + (if e.Some? then "-" + RenderNameClass(e.value, namespaces) else "")
    case NameChoice(a, b) =>
      "(" + RenderNameClass(a, namespaces) + " | " + RenderNameClass(b, namespaces) + ")"
    case NullName => ""
  }

  /** A name prints `prefix:local` when it has a namespace, with `ns` for an
      unmapped namespace, and the bare local part otherwise. */
  lemma NameRendering(q: QName, namespaces: map<string, string>)
    ensures q.ns == "" ==> RenderNameClass(Name(q), namespaces) == q.local
    ensures q.ns != "" && q.ns in namespaces ==>
              RenderNameClass(Name(q), namespaces) == namespaces[q.ns] + ":" + q.local
    ensures q.ns != "" && q.ns !in namespaces ==> RenderNameClass(Name(q), namespaces) == "ns:" + q.local
  {
  }

  function Render(p: Pattern, namespaces: map<string, string>): Result<string>
    decreases p, 1
  {
    match p
    case Group(cs) => Concat(cs, ", ", namespaces)
    case Interleave(cs) => Concat(cs, " & ", namespaces)
    case Choice(cs) => Concat(cs, " | ", namespaces)
    case OneOrMore(c) =>
      var s :- Render(c, namespaces); Success(s + "+")
    case Optional(c) =>
      var s :- Render(c, namespaces); Success(s + "?")
    case ZeroOrMore(c) =>
      var s :- Render(c, namespaces); Success(s + "*")
    case List(c) =>
      var s :- Render(c, namespaces); Success("list { " + s + " }")
    case Mixed(c) =>
      var s :- Render(c, namespaces); Success("mixed { " + s + " }")
    case Ref(n) => Success(Identifier(n))
    case Empty => Success("empty")
    case Text => Success("text")
    case NotAllowed => Success("notAllowed")
    case Element(nc, c) =>
      var s :- Render(c, namespaces);
      Success("element " + RenderNameClass(nc, namespaces) + " { " + s + " }")
    case Attribute(nc, c) =>
      var s :- Render(c, namespaces);
      Success("attribute " + RenderNameClass(nc, namespaces) + " { " + s + " }")
    case Data(library, dataType, params, except) =>
      var t :- DataType(library, dataType);
      var ps :- RenderParams(params);
      var e :- if except.Some? then
                 var x :- Render(except.value, namespaces); Success(" - " + x)
               else Success("");
      Success(t + (if |params| > 0 then " { " + ps + "}" else "") + e)
    case Value(library, dataType, value) =>
      var t :- DataType(library, dataType);
      var l :- Literal(value);
      Success(t + " " + l)
  }

  /** Each parameter as `name=literal` followed by a space. */
  function RenderParams(params: seq<Param>): Result<string>
    decreases |params|
  {
    if |params| == 0 then Success("")
    else
      var l :- Literal(params[0].value);
      var rest :- RenderParams(params[1..]);
      Success(params[0].name + "=" + l + " " + rest)
  }

  /** `concat`: more than one child is parenthesised; children are separated
      by the operator, with none after the last. */
  function Concat(cs: seq<Pattern>, op: string, namespaces: map<string, string>): Result<string>
    decreases cs, 1
  {
    var body :- Separated(cs, op, namespaces);
    Success(if |cs| > 1 then "(" + body + ")" else body)
  }

  function Separated(cs: seq<Pattern>, op: string, namespaces: map<string, string>): Result<string>
    decreases cs, 0
  {
    if |cs| == 0 then Success("")
    else
      var first :- Render(cs[0], namespaces);
      if |cs| == 1 then Success(first)
      else
        var rest :- Separated(cs[1..], op, namespaces);
        Success(first + op + rest)
  }

  /** Every child rendered on its own, or the first failure. */
  function RenderAll(cs: seq<Pattern>, namespaces: map<string, string>): (r: Result<seq<string>>)
    ensures r.Success? ==> |r.value| == |cs|
    decreases |cs|
  {
    if |cs| == 0 then Success([])
    else
      var first :- Render(cs[0], namespaces);
      var rest :- RenderAll(cs[1..], namespaces);
      Success([first] + rest)
  }

  /** `concat` is the children's renderings joined by the operator, wrapped
      in parentheses exactly when there are at least two: no children give
      the empty string and one child gives that child alone. */
  lemma {:induction false} ConcatShape(cs: seq<Pattern>, op: string, namespaces: map<string, string>)
    requires RenderAll(cs, namespaces).Success?
    ensures Separated(cs, op, namespaces) == Success(Strings.Join(RenderAll(cs, namespaces).value, op))
    ensures |cs| > 1 ==> Concat(cs, op, namespaces) == Success("(" + Strings.Join(RenderAll(cs, namespaces).value, op) + ")")
    ensures |cs| == 1 ==> Concat(cs, op, namespaces) == Render(cs[0], namespaces)
    ensures |cs| == 0 ==> Concat(cs, op, namespaces) == Success("")
    decreases |cs|
  {
    if |cs| > 1 {
      ConcatShape(cs[1..], op, namespaces);
      var strs := RenderAll(cs, namespaces).value;
      assert strs[1..] == RenderAll(cs[1..], namespaces).value;
    }
  }

  /** Two children: the children's renderings between parentheses,
      separated by the operator. */
  lemma PairShape(a: Pattern, b: Pattern, op: string, namespaces: map<string, string>)
    requires Render(a, namespaces).Success? && Render(b, namespaces).Success?
    ensures Concat([a, b], op, namespaces)
         == Success("(" + Render(a, namespaces).value + op + Render(b, namespaces).value + ")")
  {
    assert [a, b][1..] == [b];
    var ra, rb := Render(a, namespaces).value, Render(b, namespaces).value;
    assert Separated([b], op, namespaces) == Success(rb);
    assert Separated([a, b], op, namespaces) == Success(ra + op + rb);
    assert "(" + (ra + op + rb) + ")" == "(" + ra + op + rb + ")";
  }

  /** The spellings of the binary operators: `, ` `&` `|` between two
      children. */
  lemma BinaryOperatorSpellings(a: Pattern, b: Pattern, namespaces: map<string, string>)
    requires Render(a, namespaces).Success? && Render(b, namespaces).Success?
    ensures var ra, rb := Render(a, namespaces).value, Render(b, namespaces).value;
      && Render(Group([a, b]), namespaces) == Success("(" + ra + ", " + rb + ")")
      && Render(Interleave([a, b]), namespaces) == Success("(" + ra + " & " + rb + ")")
      && Render(Choice([a, b]), namespaces) == Success("(" + ra + " | " + rb + ")")
  {
    PairShape(a, b, ", ", namespaces);
    PairShape(a, b, " & ", namespaces);
    PairShape(a, b, " | ", namespaces);
  }

  /** The postfix operators `+` `?` `*` follow the child directly. */
  lemma PostfixOperatorSpellings(a: Pattern, namespaces: map<string, string>)
    requires Render(a, namespaces).Success?
    ensures Render(OneOrMore(a), namespaces) == Success(Render(a, namespaces).value + "+")
    ensures Render(Optional(a), namespaces) == Success(Render(a, namespaces).value + "?")
    ensures Render(ZeroOrMore(a), namespaces) == Success(Render(a, namespaces).value + "*")
  {
    var s := Render(a, namespaces).value;
    PostfixSpelling(a, OneOrMore(a), namespaces, s);
    PostfixSpelling(a, Optional(a), namespaces, s);
    PostfixSpelling(a, ZeroOrMore(a), namespaces, s);
  }

  lemma PostfixSpelling(a: Pattern, p: Pattern, namespaces: map<string, string>, s: string)
    requires p == OneOrMore(a) || p == Optional(a) || p == ZeroOrMore(a)
    requires Render(a, namespaces) == Success(s)
    ensures Render(p, namespaces) == Success(s + (if p.OneOrMore? then "+" else if p.Optional? then "?" else "*"))
  {
  }

  /** The constructs the serializer can print: every literal avoids one of
      the quote characters and every typed datatype comes from the built-in
      or the XML Schema library. */
  predicate Quotable(value: string) {
    !('\'' in value && '"' in value)
  }

  predicate KnownLibrary(library: string, dataType: Option<string>) {
    dataType.None? || library == "" || library == XsdLibrary
  }

  predicate Supported(p: Pattern)
    decreases p, 1
  {
    match p
    case Element(_, c) => Supported(c)
    case Attribute(_, c) => Supported(c)
    case Group(cs) => AllSupported(cs)
    case Interleave(cs) => AllSupported(cs)
    case Choice(cs) => AllSupported(cs)
    case OneOrMore(c) => Supported(c)
    case ZeroOrMore(c) => Supported(c)
    case Optional(c) => Supported(c)
    case List(c) => Supported(c)
    case Mixed(c) => Supported(c)
    case Data(lib, t, params, e) =>
      && KnownLibrary(lib, t)
      && (forall i :: 0 <= i < |params| ==> Quotable(params[i].value))
      && (e.Some? ==> Supported(e.value))
    case Value(lib, t, v) => KnownLibrary(lib, t) && Quotable(v)
    case _ => true
  }

  predicate AllSupported(ps: seq<Pattern>)
    decreases ps, 0
  {
    |ps| == 0 || (Supported(ps[0]) && AllSupported(ps[1..]))
  }

  /** Rendering fails exactly on the unsupported constructs. */
  lemma {:induction false} RenderSucceedsIff(p: Pattern, namespaces: map<string, string>)
    ensures Render(p, namespaces).Success? <==> Supported(p)
    decreases p, 1
  {
    match p
    case Element(_, c) => RenderSucceedsIff(c, namespaces);
    case Attribute(_, c) => RenderSucceedsIff(c, namespaces);
    case Group(cs) => SeparatedSucceedsIff(cs, ", ", namespaces);
    case Interleave(cs) => SeparatedSucceedsIff(cs, " & ", namespaces);
    case Choice(cs) => SeparatedSucceedsIff(cs, " | ", namespaces);
    case OneOrMore(c) => RenderSucceedsIff(c, namespaces);
    case ZeroOrMore(c) => RenderSucceedsIff(c, namespaces);
    case Optional(c) => RenderSucceedsIff(c, namespaces);
    case List(c) => RenderSucceedsIff(c, namespaces);
    case Mixed(c) => RenderSucceedsIff(c, namespaces);
    case Data(lib, t, params, e) =>
      ParamsSucceedIff(params);
      if e.Some? {
        RenderSucceedsIff(e.value, namespaces);
      }
    case Value(_, _, _) =>
    case Ref(_) =>
    case Empty =>
    case Text =>
    case NotAllowed =>
  }

  lemma {:induction false} SeparatedSucceedsIff(cs: seq<Pattern>, op: string, namespaces: map<string, string>)
    ensures Separated(cs, op, namespaces).Success? <==> AllSupported(cs)
    decreases cs, 0
  {
    if |cs| > 0 {
      RenderSucceedsIff(cs[0], namespaces);
      if |cs| > 1 {
        SeparatedSucceedsIff(cs[1..], op, namespaces);
      } else {
        assert AllSupported(cs[1..]);
      }
    }
  }

  lemma {:induction false} ParamsSucceedIff(params: seq<Param>)
    ensures RenderParams(params).Success? <==> forall i :: 0 <= i < |params| ==> Quotable(params[i].value)
    decreases |params|
  {
    if |params| > 0 {
      ParamsSucceedIff(params[1..]);
      assert forall i :: 0 < i < |params| ==> params[i] == params[1..][i - 1];
    }
  }

  /** A value pattern is its datatype part, one space, then the literal. */
  lemma ValueRendering(library: string, dataType: Option<string>, value: string, namespaces: map<string, string>)
    requires KnownLibrary(library, dataType) && Quotable(value)
    ensures Render(Value(library, dataType, value), namespaces)
         == Success(DataType(library, dataType).value + " " + Literal(value).value)
    ensures dataType.None? ==> Render(Value(library, dataType, value), namespaces) == Success(" " + Literal(value).value)
  {
    if dataType.None? {
      assert DataType(library, dataType).value == "";
      assert "" + " " + Literal(value).value == " " + Literal(value).value;
    }
  }

  /** The compact rendering of a grammar. The namespace declarations come
      from a hash map, so their order is not fixed: they are a set of lines. */
  datatype CompactGrammar = CompactGrammar(declarations: set<string>, body: string)

  function DeclarationLine(uri: string, prefix: string, literal: string): string {
    "namespace " + prefix + " = " + literal + "\n"
  }

  /** The declaration lines for the namespaces, in the collector's sorted
      order, stopping at the first URI that cannot be quoted. */
  function Declarations(nss: seq<string>, mapping: map<string, string>): (r: Result<set<string>>)
    requires forall i :: 0 <= i < |nss| ==> nss[i] in mapping
    ensures r.Success? <==> forall i :: 0 <= i < |nss| ==> Quotable(nss[i])
    ensures r.Success? ==> forall x :: x in r.value <==>
              exists i :: 0 <= i < |nss| && x == DeclarationLine(nss[i], mapping[nss[i]], Literal(nss[i]).value)
    decreases |nss|
  {
    if |nss| == 0 then Success({})
    else
      var l :- Literal(nss[0]);
      var rest :- Declarations(nss[1..], mapping);
      assert forall i :: 0 < i < |nss| ==> nss[i] == nss[1..][i - 1];
      assert forall i :: 0 <= i < |nss[1..]| ==> nss[1..][i] == nss[i + 1];
      Success({DeclarationLine(nss[0], mapping[nss[0]], l)} + rest)
  }

  /** The line printed for a definition named `name` whose pattern renders as `s`. */
  function DefinitionLine(name: string, s: string): string {
    Identifier(name) + " = " + s + "\n"
  }

  /** One `name = pattern` line per definition whose pattern is not null. */
  function DefinitionLines(ds: seq<Define>, namespaces: map<string, string>): Result<string>
    decreases |ds|
  {
    if |ds| == 0 then Success("")
    else
      var line :- if ds[0].body.Some? then
                    var s :- Render(ds[0].body.value, namespaces);
                    Success(DefinitionLine(ds[0].name, s))
                  else Success("");
      var rest :- DefinitionLines(ds[1..], namespaces);
      Success(line + rest)
  }

  /** `onGrammar`: the namespace declarations, then `grammar {`, the
      definitions, `start = ...` and `}`. Collecting the namespaces walks
      the start pattern, so a grammar without a start fails there, before
      the serializer's own test for a missing start is reached. */
  function RenderGrammar(g: Grammar): Result<CompactGrammar> {
    var nss :- NamespaceCollector.Collect(g);
    var mapping := NamespaceCollector.GrammarMapping(g).value;
    var decls :- Declarations(nss, mapping);
    var defs :- DefinitionLines(g.defines, mapping);
    var start :- if g.start.Some? then
                   var s :- Render(g.start.value, mapping); Success("start = " + s + "\n")
                 else Success("");
    Success(CompactGrammar(decls, "grammar {\n" + defs + start + "}\n"))
  }

  predicate DefinesSupported(ds: seq<Define>) {
    forall i :: 0 <= i < |ds| && ds[i].body.Some? ==> Supported(ds[i].body.value)
  }

  lemma {:induction false} DefinitionLinesSucceedIff(ds: seq<Define>, namespaces: map<string, string>)
    ensures DefinitionLines(ds, namespaces).Success? <==> DefinesSupported(ds)
    decreases |ds|
  {
    if |ds| > 0 {
      DefinitionLinesSucceedIff(ds[1..], namespaces);
      if ds[0].body.Some? {
        RenderSucceedsIff(ds[0].body.value, namespaces);
      }
      assert forall i :: 0 < i < |ds| ==> ds[i] == ds[1..][i - 1];
    }
  }

  /** The definitions `onGrammar` prints: those whose pattern is not null,
      in their order. */
  function PrintedDefines(ds: seq<Define>): (r: seq<Define>)
    ensures |r| <= |ds|
    ensures forall d :: d in r <==> d in ds && d.body.Some?
    decreases |ds|
  {
    if |ds| == 0 then [] else (if ds[0].body.Some? then [ds[0]] else []) + PrintedDefines(ds[1..])
  }

  /** The line of each of the definitions `ps`, in order. */
  function PrintedLines(ps: seq<Define>, namespaces: map<string, string>): (r: seq<string>)
    requires forall d :: d in ps ==> d.body.Some? && Render(d.body.value, namespaces).Success?
    ensures |r| == |ps|
    ensures forall i :: 0 <= i < |ps| ==> r[i] == DefinitionLine(ps[i].name, Render(ps[i].body.value, namespaces).value)
    decreases |ps|
  {
    if |ps| == 0 then []
    else [DefinitionLine(ps[0].name, Render(ps[0].body.value, namespaces).value)] + PrintedLines(ps[1..], namespaces)
  }

  /** The definitions part is one line per printed definition, in order,
      and nothing else; it fails exactly when some printed pattern fails. */
  lemma {:induction false} DefinitionLinesOnePerPrinted(ds: seq<Define>, namespaces: map<string, string>)
    ensures DefinitionLines(ds, namespaces).Success? <==>
              forall d :: d in PrintedDefines(ds) ==> Render(d.body.value, namespaces).Success?
    ensures DefinitionLines(ds, namespaces).Success? ==>
              DefinitionLines(ds, namespaces).value == Strings.Join(PrintedLines(PrintedDefines(ds), namespaces), "")
    decreases |ds|
  {
    if |ds| > 0 {
      var rest := PrintedDefines(ds[1..]);
      var tail := DefinitionLines(ds[1..], namespaces);
      DefinitionLinesOnePerPrinted(ds[1..], namespaces);
      if ds[0].body.Some? {
        var first := Render(ds[0].body.value, namespaces);
        assert PrintedDefines(ds) == [ds[0]] + rest;
        assert DefinitionLines(ds, namespaces).Success? <==> first.Success? && tail.Success?;
        if first.Success? && tail.Success? {
          var head := DefinitionLine(ds[0].name, first.value);
          assert DefinitionLines(ds, namespaces).value == head + tail.value;
          assert PrintedDefines(ds)[1..] == rest;
          Strings.JoinEmptySeparatorCons(head, PrintedLines(rest, namespaces));
        }
      } else {
        assert PrintedDefines(ds) == rest;
        assert DefinitionLines(ds, namespaces).Success? <==> tail.Success?;
        if tail.Success? {
          assert DefinitionLines(ds, namespaces).value == "" + tail.value == tail.value;
        }
      }
    }
  }

  /** A grammar renders exactly when it has a start, every printed
      definition and the start are supported, and every collected namespace
      URI can be quoted; without a start it fails on the null start. */
  lemma RenderGrammarSucceedsIff(g: Grammar)
    ensures RenderGrammar(g).Success? <==>
              && g.start.Some?
              && DefinesSupported(g.defines)
              && Supported(g.start.value)
              && (forall x :: x in NamespaceCollector.GrammarNamespaces(g) ==> Quotable(x))
    ensures g.start.None? ==> RenderGrammar(g) == Failure(NullValue)
  {
    if g.start.Some? {
      var nss := NamespaceCollector.Collect(g).value;
      var mapping := NamespaceCollector.GrammarMapping(g).value;
      DefinitionLinesSucceedIff(g.defines, mapping);
      RenderSucceedsIff(g.start.value, mapping);
      assert forall x :: x in nss <==> x in NamespaceCollector.GrammarNamespaces(g);
    }
  }

  /** The rendered grammar declares each namespace of the mapping once,
      with the prefix the mapping gives it, and nothing else. */
  lemma RenderGrammarDeclarations(g: Grammar)
    requires RenderGrammar(g).Success?
    ensures g.start.Some?
    ensures var out := RenderGrammar(g).value;
            var mapping := NamespaceCollector.GrammarMapping(g).value;
            forall x :: x in out.declarations <==>
              exists uri :: uri in mapping && x == DeclarationLine(uri, mapping[uri], Literal(uri).value)
  {
    var nss := NamespaceCollector.Collect(g).value;
    var mapping := NamespaceCollector.GrammarMapping(g).value;
    assert forall x :: x in mapping <==> x in nss;
  }

  /** The rendered grammar body: `grammar {`, one line per printed
      definition in order, the start line, and `}`. */
  lemma RenderGrammarShape(g: Grammar)
    requires RenderGrammar(g).Success?
    ensures g.start.Some?
    ensures var mapping := NamespaceCollector.GrammarMapping(g).value;
            var printed := PrintedDefines(g.defines);
            && (forall d :: d in printed ==> Render(d.body.value, mapping).Success?)
            && Render(g.start.value, mapping).Success?
            && RenderGrammar(g).value.body
                 == "grammar {\n" + Strings.Join(PrintedLines(printed, mapping), "")
                    + "start = " + Render(g.start.value, mapping).value + "\n" + "}\n"
  {
    var mapping := NamespaceCollector.GrammarMapping(g).value;
    var defs := DefinitionLines(g.defines, mapping);
    assert defs.Success?;
    DefinitionLinesOnePerPrinted(g.defines, mapping);
  }

  /** `RelaxCompactSerializer.toString(pattern)` on a pattern that is not a
      grammar: no namespace mapping is ever computed, so every namespaced
      name is printed with the fallback prefix `ns`. */
  function PatternToString(p: Pattern): Result<string> {
    Render(p, map[])
  }

  lemma PatternToStringUsesFallbackPrefix(q: QName, child: Pattern)
    requires q.ns != "" && Supported(child)
    ensures PatternToString(Element(Name(q), child)).Success?
    ensures PatternToString(Element(Name(q), child)).value
         == "element ns:" + q.local + " { " + PatternToString(child).value + " }"
  {
    RenderSucceedsIff(child, map[]);
  }
}
