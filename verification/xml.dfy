/** The ElementTree layer under every project file: an immutable element
    tree, the document namespace taken from the root tag, namespace-qualified
    child paths (`find`/`findall`), the two-space re-indentation done before
    every write, and the write-then-parse round trip that puts bare tags into
    the document's default namespace. */
module Xml {

  import opened Wrappers
  import opened Text

  /** An ElementTree element. `tag` is stored as ElementTree stores it:
      `{namespace}local` for a parsed element, or bare for one created in
      memory. `None` text or tail is Python's `None`. */
  datatype Element = Element(
    tag: string,
    attrib: map<string, string>,
    text: Option<string>,
    tail: Option<string>,
    children: seq<Element>)

  /** `not t or not t.strip()` */
  predicate Blank(t: Option<string>) {
    t.None? || AllSpace(t.value)
  }

  /** `element.get(key, default)` */
  function Get(e: Element, key: string, default: string): string {
    if key in e.attrib then e.attrib[key] else default
  }

  // ---------------------------------------------------------------- namespace

  /** A tag the namespace extraction can read: `tag.split('}')[0]` is not
      empty. Every tag produced by parsing XML is of this kind. */
  predicate HasName(tag: string) {
    |tag| > 0 && tag[0] != '}'
  }

  /** A document root. */
  type Root = e: Element | HasName(e.tag) witness Element("r", map[], None, None, [])

  /** `_getASNamespace`: the text between a leading `{` and the first `}`, or
      "" for a tag without a leading `{`; `None` where the source indexes an
      empty string and raises. */
  function Namespace(tag: string): (r: Option<string>)
    ensures r.None? <==> !HasName(tag)
    ensures r.Some? && tag[0] == '{' ==> '}' !in r.value && StartsWith(tag, "{" + r.value)
    ensures r.Some? && tag[0] == '{' ==> |tag| == 1 + |r.value| || tag[1 + |r.value|] == '}'
    ensures r.Some? && tag[0] != '{' ==> r.value == ""
  {
    var head := Split(tag, {'}'})[0];
    if |head| == 0 then None
    else if head[0] == '{' then
      assert head == [head[0]] + head[1..];
      Some(head[1..])
    else Some("")
  }

  /** `nameSpaceFormatted`: `{ns}`, or "" for no namespace. */
  function Formatted(ns: string): (r: string)
    ensures ns == "" <==> r == ""
  {
    if ns != "" then "{" + ns + "}" else ""
  }

  /** The prefix put in front of every path step of a document. */
  function Prefix(root: Root): string {
    Formatted(Namespace(root.tag).value)
  }

  /** A qualified tag gives back its namespace. */
  lemma NamespaceOfQualified(ns: string, local: string)
    requires ns != "" && '}' !in ns
    ensures Namespace(Formatted(ns) + local) == Some(ns)
  {
    var tag := "{" + ns + "}" + local;
    assert Formatted(ns) + local == tag;
    var head := Split(tag, {'}'})[0];
    assert tag[1 + |ns|] == '}';
    assert forall i :: 0 <= i < 1 + |ns| ==> tag[i] != '}' by {
      forall i | 0 <= i < 1 + |ns| ensures tag[i] != '}' {
        if i > 0 { assert tag[i] == ns[i - 1]; }
      }
    }
    assert |head| == 1 + |ns|;
    assert head == tag[..1 + |ns|];
    assert head[1..] == ns;
  }

  /** A bare tag that does not start with a brace has no namespace. */
  lemma NamespaceOfBare(local: string)
    requires |local| > 0 && local[0] != '{' && local[0] != '}'
    ensures Namespace(local) == Some("")
  {
    var head := Split(local, {'}'})[0];
    assert |head| > 0;
    assert head[0] == local[0];
  }

  // ---------------------------------------------------------------- paths

  /** One step of an ElementPath child path: a tag, optionally with an
      `[@key='value']` predicate. */
  datatype Step = Step(tag: string, attr: Option<(string, string)>)

  function Tag(tag: string): Step {
    Step(tag, None)
  }

  /** `tag[@Name='name']` */
  function Named(tag: string, name: string): Step {
    Step(tag, Some(("Name", name)))
  }

  /** The step's tag must equal the prefixed step tag exactly. */
  predicate Matches(e: Element, prefix: string, s: Step) {
    && e.tag == prefix + s.tag
    && (s.attr.Some? ==> s.attr.value.0 in e.attrib && e.attrib[s.attr.value.0] == s.attr.value.1)
  }

  /** Position of the first child matching a step. */
  function FirstIndex(cs: seq<Element>, prefix: string, s: Step): (r: Option<nat>)
    ensures r.Some? ==> r.value < |cs| && Matches(cs[r.value], prefix, s)
    ensures r.Some? ==> forall j :: 0 <= j < r.value ==> !Matches(cs[j], prefix, s)
    ensures r.None? <==> forall j :: 0 <= j < |cs| ==> !Matches(cs[j], prefix, s)
  {
    if |cs| == 0 then None
    else if Matches(cs[0], prefix, s) then Some(0)
    else
      match FirstIndex(cs[1..], prefix, s)
      case None => None
      case Some(k) => Some(k + 1)
  }

  /** The children matching a step, in document order. */
  function Filter(cs: seq<Element>, prefix: string, s: Step): (r: seq<Element>)
    ensures forall x :: x in r <==> x in cs && Matches(x, prefix, s)
    ensures |r| <= |cs|
  {
    if |cs| == 0 then []
    else if Matches(cs[0], prefix, s) then [cs[0]] + Filter(cs[1..], prefix, s)
    else Filter(cs[1..], prefix, s)
  }

  /** Filtering keeps document order and multiplicity: it distributes over
      concatenation (and a single child is kept exactly when it matches). */
  lemma {:induction false} FilterAppend(a: seq<Element>, b: seq<Element>, prefix: string, s: Step)
    ensures Filter(a + b, prefix, s) == Filter(a, prefix, s) + Filter(b, prefix, s)
  {
    if |a| == 0 {
      assert a + b == b;
    } else {
      assert (a + b)[1..] == a[1..] + b;
      FilterAppend(a[1..], b, prefix, s);
    }
  }

  /** One path step applied to a list of context elements. */
  function Select(es: seq<Element>, prefix: string, s: Step): (r: seq<Element>)
    ensures forall x :: x in r ==> Matches(x, prefix, s)
  {
    if |es| == 0 then []
    else Filter(es[0].children, prefix, s) + Select(es[1..], prefix, s)
  }

  function SelectAll(es: seq<Element>, prefix: string, steps: seq<Step>): (r: seq<Element>)
    ensures steps == [] ==> r == es
    ensures steps != [] ==> forall x :: x in r ==> Matches(x, prefix, steps[|steps| - 1])
    decreases |steps|
  {
    if steps == [] then es else SelectAll(Select(es, prefix, steps[0]), prefix, steps[1..])
  }

  /** `root.findall('./' + prefix + step1 + '/' + prefix + step2 ...)` */
  function FindAll(root: Element, prefix: string, steps: seq<Step>): (r: seq<Element>)
    ensures steps != [] ==> forall x :: x in r ==> Matches(x, prefix, steps[|steps| - 1])
  {
    SelectAll([root], prefix, steps)
  }

  /** `root.find(...)`: the first element `findall` would return. */
  function Find(root: Element, prefix: string, steps: seq<Step>): (r: Option<Element>)
    ensures r.None? <==> FindAll(root, prefix, steps) == []
    ensures r.Some? ==> r.value in FindAll(root, prefix, steps)
    ensures r.Some? && steps != [] ==> Matches(r.value, prefix, steps[|steps| - 1])
  {
    var all := FindAll(root, prefix, steps);
    if |all| > 0 then Some(all[0]) else None
  }

  /** For a single step, `find` returns the child `FirstIndex` points at. */
  lemma {:induction false} FindOneStep(root: Element, prefix: string, s: Step)
    ensures Find(root, prefix, [s]).Some? <==> FirstIndex(root.children, prefix, s).Some?
    ensures Find(root, prefix, [s]).Some? ==>
      Find(root, prefix, [s]).value == root.children[FirstIndex(root.children, prefix, s).value]
  {
    SelectSingle(root, prefix, s);
    assert [s][1..] == [];
    assert FindAll(root, prefix, [s]) == SelectAll(Select([root], prefix, s), prefix, []);
    FilterFirst(root.children, prefix, s);
  }

  lemma SelectSingle(root: Element, prefix: string, s: Step)
    ensures Select([root], prefix, s) == Filter(root.children, prefix, s)
  {
    assert [root][1..] == [];
    assert Select([], prefix, s) == [];
    var f := Filter(root.children, prefix, s);
    assert Select([root], prefix, s) == f + Select([root][1..], prefix, s);
    assert f + [] == f;
  }

  lemma {:induction false} FilterFirst(cs: seq<Element>, prefix: string, s: Step)
    ensures |Filter(cs, prefix, s)| > 0 <==> FirstIndex(cs, prefix, s).Some?
    ensures |Filter(cs, prefix, s)| > 0 ==>
      Filter(cs, prefix, s)[0] == cs[FirstIndex(cs, prefix, s).value]
  {
    if |cs| > 0 && !Matches(cs[0], prefix, s) {
      FilterFirst(cs[1..], prefix, s);
    }
  }

  lemma {:induction false} SelectNonEmpty(es: seq<Element>, prefix: string, s: Step)
    ensures |Select(es, prefix, s)| > 0 <==>
      exists x :: x in es && exists y :: y in x.children && Matches(y, prefix, s)
  {
    if |es| > 0 {
      SelectNonEmpty(es[1..], prefix, s);
      var f := Filter(es[0].children, prefix, s);
      if |f| > 0 {
        assert f[0] in f;
      }
      if exists x :: x in es[1..] && exists y :: y in x.children && Matches(y, prefix, s) {
        var x :| x in es[1..] && exists y :: y in x.children && Matches(y, prefix, s);
        assert x in es;
      }
    }
  }

  /** A two-step path finds something exactly when some child matching the
      first step has a child matching the second. */
  lemma FindTwoSteps(root: Element, prefix: string, s1: Step, s2: Step)
    ensures |FindAll(root, prefix, [s1, s2])| > 0 <==>
      exists x :: x in root.children && Matches(x, prefix, s1) &&
        exists y :: y in x.children && Matches(y, prefix, s2)
  {
    var first := Select([root], prefix, s1);
    SelectSingle(root, prefix, s1);
    assert [s1, s2][1..] == [s2];
    assert [s2][1..] == [];
    assert FindAll(root, prefix, [s1, s2]) == SelectAll(first, prefix, [s2]);
    assert SelectAll(first, prefix, [s2]) == Select(first, prefix, s2);
    SelectNonEmpty(first, prefix, s2);
  }

  lemma {:induction false} SelectMember(es: seq<Element>, prefix: string, s: Step, x: Element)
    ensures x in Select(es, prefix, s) <==>
      exists l :: l in es && x in l.children && Matches(x, prefix, s)
  {
    if |es| > 0 {
      SelectMember(es[1..], prefix, s, x);
      if exists l :: l in es[1..] && x in l.children && Matches(x, prefix, s) {
        var l :| l in es[1..] && x in l.children && Matches(x, prefix, s);
        assert l in es;
      }
      if exists l :: l in es && x in l.children && Matches(x, prefix, s) {
        var l :| l in es && x in l.children && Matches(x, prefix, s);
        if l != es[0] {
          assert l in es[1..];
        }
      }
    }
  }

  /** What a two-step path finds: the children matching the second step of
      the root's children matching the first. */
  lemma FindAllTwoStepsMember(root: Element, prefix: string, s1: Step, s2: Step, x: Element)
    ensures x in FindAll(root, prefix, [s1, s2]) <==>
      exists l :: l in root.children && Matches(l, prefix, s1) && x in l.children && Matches(x, prefix, s2)
  {
    var first := Select([root], prefix, s1);
    SelectSingle(root, prefix, s1);
    assert [s1, s2][1..] == [s2];
    assert [s2][1..] == [];
    assert FindAll(root, prefix, [s1, s2]) == SelectAll(first, prefix, [s2]);
    assert SelectAll(first, prefix, [s2]) == Select(first, prefix, s2);
    SelectMember(first, prefix, s2, x);
  }

  // ---------------------------------------------------------------- editing

  /** `parent.append(child)` */
  function Append(e: Element, c: Element): (r: Element)
    ensures r.tag == e.tag && r.attrib == e.attrib && r.text == e.text && r.tail == e.tail
    ensures r.children == e.children + [c]
  {
    e.(children := e.children + [c])
  }

  /** `parent.insert(index, child)`: an index past the end appends. */
  function Insert(e: Element, index: nat, c: Element): (r: Element)
    ensures r.tag == e.tag && r.attrib == e.attrib
    ensures c in r.children && forall x :: x in e.children ==> x in r.children
    ensures |r.children| == |e.children| + 1
    ensures var k := if index <= |e.children| then index else |e.children|;
      r.children[k] == c && r.children[..k] == e.children[..k] && r.children[k + 1..] == e.children[k..]
  {
    var k := if index <= |e.children| then index else |e.children|;
    e.(children := e.children[..k] + [c] + e.children[k..])
  }

  /** Replace the child at a position. */
  function SetChild(e: Element, i: nat, c: Element): (r: Element)
    requires i < |e.children|
    ensures r.tag == e.tag && r.attrib == e.attrib && r.children == e.children[i := c]
  {
    e.(children := e.children[i := c])
  }

  // ---------------------------------------------------------------- indentation

  function Spaces(n: nat): string {
    if n == 0 then "" else "  " + Spaces(n - 1)
  }

  /** The whitespace `_indentXml` writes at a level: a newline and two spaces per level. */
  function Newline(level: nat): (r: string)
    ensures AllSpace(r) && |r| > 0
  {
    SpacesAreSpace(level);
    "\n" + Spaces(level)
  }

  lemma {:induction false} SpacesAreSpace(n: nat)
    ensures AllSpace(Spaces(n))
  {
    if n > 0 {
      SpacesAreSpace(n - 1);
    }
  }

  /** `_indentXml(elem, level)`. An element with children gets a text and a
      tail of its own level if those are blank; its children are indented one
      level deeper; the last child's blank tail is then reset to the parent's
      level. A childless element only gets a tail, and not at level 0. Text
      or tail with a non-whitespace character is never touched. */
  function Indent(e: Element, level: nat): (r: Element)
    ensures r.tag == e.tag && r.attrib == e.attrib && |r.children| == |e.children|
    ensures !Blank(e.text) ==> r.text == e.text
    ensures !Blank(e.tail) ==> r.tail == e.tail
    ensures |e.children| > 0 ==> !r.text.None? && !r.tail.None?
    decreases e
  {
    var i := Newline(level);
    if |e.children| > 0 then
      Element(
        e.tag,
        e.attrib,
        if Blank(e.text) then Some(i + "  ") else e.text,
        if Blank(e.tail) then Some(i) else e.tail,
        ResetLastTail(IndentAll(e.children, level + 1), i))
    else if level > 0 && Blank(e.tail) then e.(tail := Some(i))
    else e
  }

  /** Every element of a list indented at the same level. */
  function IndentAll(cs: seq<Element>, level: nat): (r: seq<Element>)
    ensures |r| == |cs|
    ensures forall k :: 0 <= k < |cs| ==> r[k] == Indent(cs[k], level)
    decreases cs
  {
    if cs == [] then [] else [Indent(cs[0], level)] + IndentAll(cs[1..], level)
  }

  function ResetLastTail(kids: seq<Element>, i: string): (r: seq<Element>)
    requires |kids| > 0
    ensures |r| == |kids| && forall k :: 0 <= k < |r| - 1 ==> r[k] == kids[k]
    ensures var last := kids[|kids| - 1];
      r[|r| - 1] == if Blank(last.tail) then last.(tail := Some(i)) else last
  {
    var last := kids[|kids| - 1];
    if Blank(last.tail) then kids[..|kids| - 1] + [last.(tail := Some(i))] else kids
  }

  /** What `write()` does to the tree before serialising it. */
  function Write(root: Root): (r: Root)
    ensures r.tag == root.tag && |r.children| == |root.children|
  {
    var r := Indent(root, 0);
    IndentShape(root, 0);
    r
  }

  /** Indentation keeps the tag, the attributes and the number of children. */
  lemma IndentShape(e: Element, level: nat)
    ensures Indent(e, level).tag == e.tag && Indent(e, level).attrib == e.attrib
    ensures |Indent(e, level).children| == |e.children|
  {
  }

  /** Indentation keeps every child's tag and attributes. */
  lemma IndentChildShape(e: Element, level: nat, k: nat)
    requires k < |e.children|
    ensures Indent(e, level).children[k].tag == e.children[k].tag
    ensures Indent(e, level).children[k].attrib == e.children[k].attrib
  {
    var kids := IndentAll(e.children, level + 1);
    assert Indent(e, level).children == ResetLastTail(kids, Newline(level));
    IndentShape(e.children[k], level + 1);
    ResetLastTailShape(kids, Newline(level), k);
  }

  lemma ResetLastTailShape(kids: seq<Element>, i: string, k: nat)
    requires k < |kids|
    ensures ResetLastTail(kids, i)[k].tag == kids[k].tag
    ensures ResetLastTail(kids, i)[k].attrib == kids[k].attrib
  {
  }

  /** Blank text and tail erased to `None`, everywhere in the tree. */
  function Norm(e: Element): (r: Element)
    ensures r.tag == e.tag && r.attrib == e.attrib && |r.children| == |e.children|
    decreases e
  {
    Element(
      e.tag,
      e.attrib,
      if Blank(e.text) then None else e.text,
      if Blank(e.tail) then None else e.tail,
      NormAll(e.children))
  }

  function NormAll(cs: seq<Element>): (r: seq<Element>)
    ensures |r| == |cs|
    ensures forall k :: 0 <= k < |cs| ==> r[k] == Norm(cs[k])
    decreases cs
  {
    if cs == [] then [] else [Norm(cs[0])] + NormAll(cs[1..])
  }

  /** Replacing one blank tail by another changes nothing once blanks are erased. */
  lemma NormBlankTail(e: Element, t: string)
    requires Blank(e.tail) && AllSpace(t)
    ensures Norm(e.(tail := Some(t))) == Norm(e)
  {
  }

  /** The write rewrites only whitespace: every tag, attribute, child and
      non-blank text or tail survives it unchanged. */
  lemma {:induction false} IndentKeepsContent(e: Element, level: nat)
    ensures Norm(Indent(e, level)) == Norm(e)
    decreases e
  {
    var i := Newline(level);
    if |e.children| > 0 {
      var kids := IndentAll(e.children, level + 1);
      forall k | 0 <= k < |e.children|
        ensures Norm(kids[k]) == Norm(e.children[k])
      {
        IndentKeepsContent(e.children[k], level + 1);
      }
      NormAllReset(kids, e.children, i);
      IndentText(i);
    }
  }

  /** Resetting the last blank tail is invisible once blanks are erased. */
  lemma NormAllReset(kids: seq<Element>, orig: seq<Element>, i: string)
    requires |kids| == |orig| > 0 && AllSpace(i)
    requires forall k {:trigger Norm(kids[k])} :: 0 <= k < |kids| ==> Norm(kids[k]) == Norm(orig[k])
    ensures NormAll(ResetLastTail(kids, i)) == NormAll(orig)
  {
    var kids' := ResetLastTail(kids, i);
    var n := |kids| - 1;
    assert Norm(kids'[n]) == Norm(orig[n]) by {
      assert Norm(kids[n]) == Norm(orig[n]);
      if Blank(kids[n].tail) {
        NormBlankTail(kids[n], i);
      }
    }
    forall k | 0 <= k < n
      ensures Norm(kids'[k]) == Norm(orig[k])
    {
      assert kids'[k] == kids[k];
      assert Norm(kids[k]) == Norm(orig[k]);
    }
    NormAllPointwise(kids', orig);
  }

  lemma NormAllPointwise(xs: seq<Element>, ys: seq<Element>)
    requires |xs| == |ys|
    requires forall k :: 0 <= k < |xs| ==> Norm(xs[k]) == Norm(ys[k])
    ensures NormAll(xs) == NormAll(ys)
  {
    var a := NormAll(xs);
    var b := NormAll(ys);
    assert forall k :: 0 <= k < |a| ==> a[k] == b[k];
  }

  /** A blank tail is what indentation at a positive level overwrites anyway. */
  lemma IndentIgnoresBlankTail(e: Element, t: string, level: nat)
    requires level > 0 && Blank(e.tail) && AllSpace(t)
    ensures Indent(e.(tail := Some(t)), level) == Indent(e, level)
  {
    var e' := e.(tail := Some(t));
    assert e'.children == e.children;
  }

  /** At a positive level the indented tail is blank exactly when it was. */
  lemma IndentTailBlank(e: Element, level: nat)
    requires level > 0
    ensures Blank(Indent(e, level).tail) <==> Blank(e.tail)
  {
  }

  /** One level's children, each already a fixed point of indentation, are
      unchanged by indenting them again and resetting the last tail. */
  lemma IndentedKidsStable(kids: seq<Element>, level: nat)
    requires |kids| > 0
    requires forall k {:trigger Indent(kids[k], level + 1)} :: 0 <= k < |kids| ==> Indent(kids[k], level + 1) == kids[k]
    ensures ResetLastTail(IndentAll(ResetLastTail(kids, Newline(level)), level + 1), Newline(level))
      == ResetLastTail(kids, Newline(level))
  {
    var i := Newline(level);
    var n := |kids| - 1;
    assert Indent(kids[n], level + 1) == kids[n];
    LastStable(kids[n], i, level);
    IndentAllFixed(ResetLastTail(kids, i), kids, level + 1);
  }

  /** A fixed point whose blank tail is reset stays a preimage of itself. */
  lemma LastStable(last: Element, i: string, level: nat)
    requires AllSpace(i)
    requires Indent(last, level + 1) == last
    ensures Indent(if Blank(last.tail) then last.(tail := Some(i)) else last, level + 1) == last
  {
    if Blank(last.tail) {
      IndentIgnoresBlankTail(last, i, level + 1);
    }
  }

  lemma IndentAllFixed(kids1: seq<Element>, kids: seq<Element>, level: nat)
    requires |kids1| == |kids| > 0
    requires forall k :: 0 <= k < |kids| - 1 ==> kids1[k] == kids[k]
    requires Indent(kids1[|kids| - 1], level) == kids[|kids| - 1]
    requires forall k {:trigger Indent(kids[k], level)} :: 0 <= k < |kids| ==> Indent(kids[k], level) == kids[k]
    ensures IndentAll(kids1, level) == kids
  {
    var kids2 := IndentAll(kids1, level);
    forall k | 0 <= k < |kids|
      ensures kids2[k] == kids[k]
    {
      if k < |kids| - 1 {
        assert kids1[k] == kids[k];
        assert kids2[k] == Indent(kids[k], level);
      }
    }
  }

  lemma IndentText(i: string)
    requires AllSpace(i)
    ensures Blank(Some(i + "  "))
  {
  }

  /** Indenting twice is indenting once. */
  lemma {:induction false} IndentIdempotent(e: Element, level: nat)
    ensures Indent(Indent(e, level), level) == Indent(e, level)
    decreases e
  {
    var i := Newline(level);
    var e1 := Indent(e, level);
    if |e.children| > 0 {
      var kids := IndentAll(e.children, level + 1);
      forall k | 0 <= k < |kids|
        ensures Indent(kids[k], level + 1) == kids[k]
      {
        IndentIdempotent(e.children[k], level + 1);
      }
      IndentedKidsStable(kids, level);
      IndentText(i);
      assert e1.children == ResetLastTail(kids, i);
    }
  }

  /** Writing twice is writing once. */
  lemma WriteIdempotent(root: Root)
    ensures Write(Write(root)) == Write(root)
  {
    IndentIdempotent(root, 0);
  }

  // ---------------------------------------------------------------- reload

  /** The tag a parsed copy of the written file has: a bare tag lands in the
      document's default namespace, a qualified one keeps its namespace. */
  function Qualify(tag: string, prefix: string): string {
    if |tag| > 0 && tag[0] == '{' then tag else prefix + tag
  }

  function Requalify(e: Element, prefix: string): (r: Element)
    ensures r.attrib == e.attrib && |r.children| == |e.children|
    ensures r.tag == Qualify(e.tag, prefix)
    decreases e
  {
    Element(
      Qualify(e.tag, prefix),
      e.attrib,
      e.text,
      e.tail,
      seq(|e.children|, k requires 0 <= k < |e.children| => Requalify(e.children[k], prefix)))
  }

  /** `read()` after `write()`: the document parsed back from the file it
      was just written to. The root keeps its tag. */
  function Reload(root: Root): (r: Root)
    ensures r.tag == root.tag && Prefix(r) == Prefix(root)
  {
    var p := Prefix(root);
    assert Qualify(root.tag, p) == root.tag by {
      if root.tag[0] != '{' {
        assert p == "";
      }
    }
    Requalify(root, p)
  }

  /** After a reload, a bare child with the step's local tag matches the
      step, and so does one that already matched. */
  lemma ReloadMatches(c: Element, prefix: string, s: Step)
    requires (|prefix| > 0 && prefix[0] == '{') || prefix == ""
    requires Matches(c, prefix, s) || c.tag == s.tag
    requires s.attr.Some? ==> s.attr.value.0 in c.attrib && c.attrib[s.attr.value.0] == s.attr.value.1
    requires |s.tag| > 0 && s.tag[0] != '{'
    ensures Matches(Requalify(c, prefix), prefix, s)
  {
  }

  /** A child present before a write and the reload after it is found by a
      one-step path afterwards, bare or qualified. */
  lemma ReloadFinds(root: Root, k: nat, s: Step)
    requires k < |root.children|
    requires Matches(root.children[k], Prefix(root), s) || root.children[k].tag == s.tag
    requires s.attr.Some? ==> s.attr.value.0 in root.children[k].attrib && root.children[k].attrib[s.attr.value.0] == s.attr.value.1
    requires |s.tag| > 0 && s.tag[0] != '{'
    ensures Find(Reload(Write(root)), Prefix(root), [s]).Some?
  {
    var w := Write(root);
    IndentChildShape(root, 0, k);
    var r := Reload(w);
    var p := Prefix(root);
    assert Prefix(w) == p;
    ReloadMatches(w.children[k], p, s);
    assert r.children[k] == Requalify(w.children[k], p);
    FindOneStep(r, p, s);
  }

  /** Two child lists that agree on tags and attributes agree on where a
      path step first matches. */
  lemma {:induction false} FirstIndexSameShape(cs: seq<Element>, ds: seq<Element>, prefix: string, s: Step)
    requires |cs| == |ds|
    requires forall k :: 0 <= k < |cs| ==> cs[k].tag == ds[k].tag && cs[k].attrib == ds[k].attrib
    ensures FirstIndex(cs, prefix, s) == FirstIndex(ds, prefix, s)
  {
    if |cs| > 0 {
      FirstIndexSameShape(cs[1..], ds[1..], prefix, s);
    }
  }

  /** Appending `c` under the root's child `i` adds `c`, and nothing else, to
      what a two-step path finds, and only when that child and `c` match
      the two steps. */
  lemma AppendUnderMember(root: Element, i: nat, c: Element, prefix: string, s1: Step, s2: Step, x: Element)
    requires i < |root.children|
    ensures var r := SetChild(root, i, Append(root.children[i], c));
      x in FindAll(r, prefix, [s1, s2]) <==>
        x in FindAll(root, prefix, [s1, s2]) ||
        (x == c && Matches(root.children[i], prefix, s1) && Matches(c, prefix, s2))
  {
    var r := SetChild(root, i, Append(root.children[i], c));
    FindAllTwoStepsMember(root, prefix, s1, s2, x);
    FindAllTwoStepsMember(r, prefix, s1, s2, x);
    if x in FindAll(r, prefix, [s1, s2]) {
      AppendUnderOld(root, i, c, prefix, s1, s2, x);
    }
    if x in FindAll(root, prefix, [s1, s2]) {
      var l :| l in root.children && Matches(l, prefix, s1) && x in l.children && Matches(x, prefix, s2);
      var k :| 0 <= k < |root.children| && root.children[k] == l;
      assert r.children[k] in r.children;
      assert x in r.children[k].children;
    }
    if x == c && Matches(root.children[i], prefix, s1) && Matches(c, prefix, s2) {
      assert r.children[i] in r.children;
      assert x in r.children[i].children;
    }
  }

  lemma AppendUnderOld(root: Element, i: nat, c: Element, prefix: string, s1: Step, s2: Step, x: Element)
    requires i < |root.children|
    requires var r := SetChild(root, i, Append(root.children[i], c));
      exists l :: l in r.children && Matches(l, prefix, s1) && x in l.children && Matches(x, prefix, s2)
    ensures (exists l :: l in root.children && Matches(l, prefix, s1) && x in l.children && Matches(x, prefix, s2)) ||
      (x == c && Matches(root.children[i], prefix, s1) && Matches(c, prefix, s2))
  {
    var r := SetChild(root, i, Append(root.children[i], c));
    var l :| l in r.children && Matches(l, prefix, s1) && x in l.children && Matches(x, prefix, s2);
    var k :| 0 <= k < |r.children| && r.children[k] == l;
    if k == i {
      if x != c {
        assert x in root.children[i].children;
        assert root.children[i] in root.children;
      }
    } else {
      assert l in root.children;
    }
  }
}
