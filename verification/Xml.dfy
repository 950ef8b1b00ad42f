/** The reader and the printer of the XML trees in which hosts are described. */
module Xml {
  import opened Wrappers

  const BUF_LEN: nat := 1024

  datatype Attr = Attr(name: string, value: string)

  datatype Node =
    | Element(name: string, attrs: seq<Attr>, children: seq<Node>)
    | Text(value: string)
    | Prolog(value: string)
    | Instruction(value: string)
    | CData(value: string)
    | DocType(value: string)

  /** How a read can fail: read_error, or a name or value too long for the shared buffer (which
      the program does not check). */
  datatype Failure = ReadError | Overrun

  datatype Result<+T> = Ok(value: T) | Fail(error: Failure)
  {
    predicate IsFailure() { Fail? }

    function PropagateFailure<U>(): Result<U>
      requires Fail?
    {
      Fail(error)
    }

    function Extract(): T
      requires Ok?
    {
      value
    }
  }

  // ----- Characters -----

  predicate IsAlpha(c: char) { 'a' <= c <= 'z' || 'A' <= c <= 'Z' }

  predicate IsDigit(c: char) { '0' <= c <= '9' }

  predicate IsSpace(c: char) { c == ' ' || '\t' <= c <= '\r' }

  predicate IsNameChar(c: char) {
    IsAlpha(c) || IsDigit(c) || c == '_' || c == ':' || c == '.'
  }

  /** The classes by their ASCII codes. */
  lemma CharacterCodes(c: char)
    ensures IsSpace(c) <==> c as int in {9, 10, 11, 12, 13, 32}
    ensures IsAlpha(c) <==> 65 <= c as int <= 90 || 97 <= c as int <= 122
    ensures IsNameChar(c) <==> IsAlpha(c) || 48 <= c as int <= 57 || c as int in {46, 58, 95}
  {
  }

  /** The C string at the start of a buffer. */
  function CString(b: string): string {
    if b == [] || b[0] == '\0' then [] else [b[0]] + CString(b[1..])
  }

  lemma {:induction false} CStringEnds(s: string, rest: string)
    requires '\0' !in s
    ensures CString(s + ['\0'] + rest) == s
  {
    var b := s + ['\0'] + rest;
    if s != [] {
      CStringEnds(s[1..], rest);
      assert b[1..] == s[1..] + ['\0'] + rest;
    }
  }

  // ----- The printed form, followed by `rest` -----

  function PrintAttr(a: Attr, rest: string): string {
    a.name + ("=" + ("\"" + (a.value + ("\"" + rest))))
  }

  function PrintAttrs(attrs: seq<Attr>, rest: string): string {
    if attrs == [] then rest else " " + PrintAttr(attrs[0], PrintAttrs(attrs[1..], rest))
  }

  function PrintNode(x: Node, rest: string): string
    decreases x, 0
  {
    match x
    case Text(value) => value + rest
    case Prolog(value) => "<?" + (value + ("?>" + rest))
    case Instruction(value) => "<?" + (value + ("?>" + rest))
    case CData(value) => "<[CDATA[" + (value + ("]]>" + rest))
    case DocType(value) => "<!DOCTYPE" + (value + (">" + rest))
    case Element(name, attrs, children) =>
      "<" + (name + PrintAttrs(attrs,
        if children == [] then "/>" + rest
        else ">" + PrintNodes(children, "</" + (name + (">" + rest)))))
  }

  function PrintNodes(xs: seq<Node>, rest: string): string
    decreases xs, 1
  {
    if xs == [] then rest else PrintNode(xs[0], PrintNodes(xs[1..], rest))
  }

  function PrintDom(xs: seq<Node>): string {
    if xs == [] then "" else PrintNode(xs[0], "\n" + PrintDom(xs[1..]))
  }

  // ----- Trees that survive printing -----

  predicate GoodName(name: string) {
    && 0 < |name| < BUF_LEN && name[0] != '_'
    && forall k | 0 <= k < |name| :: IsNameChar(name[k])
  }

  predicate GoodAttr(a: Attr) {
    GoodName(a.name) && |a.value| < BUF_LEN && '"' !in a.value && '\0' !in a.value
  }

  predicate GoodAttrs(attrs: seq<Attr>) {
    attrs == [] || (GoodAttr(attrs[0]) && GoodAttrs(attrs[1..]))
  }

  /** How much a reader of markup that ends in `end`, a row of one mark and '>', takes at a time: marks up to
      that row's length and the character after them, which it does not look at again. */
  function PieceLength(s: string, end: string): (n: nat)
    ensures n > 0
  {
    if |end| > 1 && s != [] && s[0] == end[0] then 1 + PieceLength(s[1..], end[1..]) else 1
  }

  /** No piece of `s` is the end, and the last one is whole. */
  predicate Apart(s: string, end: string)
    decreases |s|
  {
    s == [] ||
    var n := PieceLength(s, end);
    n <= |s| && s[..n] != end && Apart(s[n..], end)
  }

  predicate BeginsXml(value: string) { |value| >= 3 && value[..3] == "xml" }

  predicate Storable(value: string) { |value| < BUF_LEN && '\0' !in value }

  /** CDATA is left out: it is printed without its '!'. */
  predicate Good(x: Node)
    decreases x, 0
  {
    match x
    case Text(value) => value != "" && '<' !in value && Storable(value)
    case Prolog(value) => BeginsXml(value) && Apart(value, "?>") && Storable(value)
    case Instruction(value) =>
      !BeginsXml(value) && value !in {"", "x", "xm"} && Apart(value, "?>") && Storable(value)
    case CData(_) => false
    case DocType(value) => Apart(value, ">") && Storable(value)
    case Element(name, attrs, children) => GoodName(name) && GoodAttrs(attrs) && AllGood(children)
  }

  /** Good nodes, and never two texts in a row. */
  predicate AllGood(xs: seq<Node>)
    decreases xs, 1
  {
    xs == [] || (Good(xs[0]) && AllGood(xs[1..]) && (xs[0].Text? && |xs| > 1 ==> !xs[1].Text?))
  }

  /** The children of a document: no text. */
  predicate GoodDom(xs: seq<Node>) {
    xs == [] || (!xs[0].Text? && Good(xs[0]) && GoodDom(xs[1..]))
  }

  /** A document type somewhere in the tree. */
  predicate Declares(x: Node)
    decreases x, 0
  {
    x.DocType? || (x.Element? && SomeDeclares(x.children))
  }

  predicate SomeDeclares(xs: seq<Node>)
    decreases xs, 1
  {
    xs != [] && (Declares(xs[0]) || SomeDeclares(xs[1..]))
  }

  // ----- Markup as anybody may write it -----

  /** An attribute with the spaces around it and the quote in use. */
  datatype Placed = Placed(before: string, attr: Attr, beforeEq: string, afterEq: string, quote: char)

  /** An element ended by '/>', one with an end tag (of whatever name), text, a comment, or what begins with
      '<?' or '<!'; the last two with a character, or none, after the '!'. */
  datatype Markup =
    | Short(name: string, attrs: seq<Placed>, space: string)
    | Long(name: string, attrs: seq<Placed>, space: string, children: seq<Markup>, end: string, endSpace: string)
    | Words(value: string)
    | Comment(value: string)
    | Question(value: string)
    | Section(skip: string, value: string)
    | Declaration(skip: string, value: string)

  /** A root and the spaces before it. */
  datatype Root = Root(before: string, element: Markup)

  function WriteAttr(a: Placed, rest: string): string {
    a.attr.name + WriteValue(a, rest)
  }

  function WriteValue(a: Placed, rest: string): string {
    a.beforeEq + ("=" + (a.afterEq + ([a.quote] + (a.attr.value + ([a.quote] + rest)))))
  }

  function WriteAttrs(attrs: seq<Placed>, rest: string): string {
    if attrs == [] then rest else attrs[0].before + WriteAttr(attrs[0], WriteAttrs(attrs[1..], rest))
  }

  function Write(x: Markup, rest: string): string
    decreases x, 0
  {
    match x
    case Words(value) => value + rest
    case Comment(value) => "<!--" + (value + ("-->" + rest))
    case Question(value) => "<?" + (value + ("?>" + rest))
    case Section(skip, value) => "<!" + (skip + ("[CDATA[" + (value + ("]]>" + rest))))
    case Declaration(skip, value) => "<!" + (skip + ("DOCTYPE" + (value + (">" + rest))))
    case Short(name, attrs, space) => "<" + (name + WriteAttrs(attrs, space + ("/>" + rest)))
    case Long(name, attrs, space, children, end, endSpace) =>
      "<" + (name + WriteAttrs(attrs, space + (">" + WriteAll(children, "</" + (end + (endSpace + (">" + rest)))))))
  }

  function WriteAll(xs: seq<Markup>, rest: string): string
    decreases xs, 1
  {
    if xs == [] then rest else Write(xs[0], WriteAll(xs[1..], rest))
  }

  function WriteRoots(xs: seq<Root>, last: string): string {
    if xs == [] then last else xs[0].before + Write(xs[0].element, WriteRoots(xs[1..], last))
  }

  /** The tree that is written: spaces, the choice of quote and of tag end, and comments are no part of it. */
  function Tree(x: Markup): Option<Node>
    decreases x, 0
  {
    match x
    case Words(value) => Some(Text(value))
    case Comment(_) => None
    case Question(value) => Some(if BeginsXml(value) then Prolog(value) else Instruction(value))
    case Section(_, value) => Some(CData(value))
    case Declaration(_, value) => Some(DocType(value))
    case Short(name, attrs, _) => Some(Element(name, AttrsOf(attrs), []))
    case Long(name, attrs, _, children, _, _) => Some(Element(name, AttrsOf(attrs), Trees(children)))
  }

  function Listed(x: Option<Node>): seq<Node> {
    if x.Some? then [x.value] else []
  }

  function Trees(xs: seq<Markup>): seq<Node>
    decreases xs, 1
  {
    if xs == [] then [] else Listed(Tree(xs[0])) + Trees(xs[1..])
  }

  function AttrsOf(attrs: seq<Placed>): seq<Attr> {
    if attrs == [] then [] else [attrs[0].attr] + AttrsOf(attrs[1..])
  }

  function RootTrees(xs: seq<Root>): seq<Node> {
    if xs == [] then [] else Listed(Tree(xs[0].element)) + RootTrees(xs[1..])
  }

  /** Every end tag has the name of its element, and every CDATA and DOCTYPE has a character too many after
      its '!'. */
  predicate Matched(x: Markup)
    decreases x, 0
  {
    match x
    case Long(name, _, _, children, end, _) => AllMatched(children) && end == name
    case Section(skip, _) => skip != ""
    case Declaration(skip, _) => skip != ""
    case _ => true
  }

  predicate AllMatched(xs: seq<Markup>)
    decreases xs, 1
  {
    xs == [] || (Matched(xs[0]) && AllMatched(xs[1..]))
  }

  predicate RootsMatched(xs: seq<Root>) {
    xs == [] || (Matched(xs[0].element) && RootsMatched(xs[1..]))
  }

  /** Space, tab, newline, vertical tab, form feed and carriage return, any number of them. */
  predicate Spaces(s: string) {
    forall k | 0 <= k < |s| :: s[k] as int in {9, 10, 11, 12, 13, 32}
  }

  /** The value may hold everything but its own quote. */
  predicate Placeable(a: Placed) {
    && Spaces(a.before) && Spaces(a.beforeEq) && Spaces(a.afterEq) && a.quote in {'"', '\''}
    && GoodName(a.attr.name) && |a.attr.value| < BUF_LEN && a.quote !in a.attr.value && '\0' !in a.attr.value
  }

  predicate AllPlaceable(attrs: seq<Placed>) {
    attrs == [] || (Placeable(attrs[0]) && AllPlaceable(attrs[1..]))
  }

  /** A space ends the name of the element; between attributes there need be none. */
  predicate Writable(x: Markup)
    decreases x, 0
  {
    match x
    case Words(value) => value != "" && '<' !in value && Storable(value)
    case Comment(value) => Apart(value, "-->")
    case Question(value) => value !in {"", "x", "xm"} && Apart(value, "?>") && Storable(value)
    case Section(skip, value) => |skip| <= 1 && skip != "-" && Apart(value, "]]>") && Storable(value)
    case Declaration(skip, value) => |skip| <= 1 && skip != "-" && Apart(value, ">") && Storable(value)
    case Short(name, attrs, space) =>
      GoodName(name) && AllPlaceable(attrs) && (attrs != [] ==> attrs[0].before != "") && Spaces(space)
    case Long(name, attrs, space, children, end, endSpace) =>
      && GoodName(name) && AllPlaceable(attrs) && (attrs != [] ==> attrs[0].before != "") && Spaces(space)
      && AllWritable(children) && GoodName(end) && Spaces(endSpace)
  }

  /** Never two texts in a row. */
  predicate AllWritable(xs: seq<Markup>)
    decreases xs, 1
  {
    xs == [] || (Writable(xs[0]) && AllWritable(xs[1..]) && (xs[0].Words? && |xs| > 1 ==> !xs[1].Words?))
  }

  predicate RootsWritable(xs: seq<Root>) {
    xs == [] || (Spaces(xs[0].before) && !xs[0].element.Words? && Writable(xs[0].element) && RootsWritable(xs[1..]))
  }

  // ----- The printed form is one way of writing -----

  function PlainAttrs(attrs: seq<Attr>): seq<Placed> {
    if attrs == [] then [] else [Placed(" ", attrs[0], "", "", '"')] + PlainAttrs(attrs[1..])
  }

  function Plain(x: Node): Markup
    decreases x, 0
  {
    match x
    case Text(value) => Words(value)
    case Prolog(value) => Question(value)
    case Instruction(value) => Question(value)
    case CData(value) => Section("", value)
    case DocType(value) => Declaration("", value)
    case Element(name, attrs, children) =>
      if children == [] then Short(name, PlainAttrs(attrs), "")
      else Long(name, PlainAttrs(attrs), "", PlainAll(children), name, "")
  }

  function PlainAll(xs: seq<Node>): seq<Markup>
    decreases xs, 1
  {
    if xs == [] then [] else [Plain(xs[0])] + PlainAll(xs[1..])
  }

  function PlainRoots(xs: seq<Node>, before: string): seq<Root> {
    if xs == [] then [] else [Root(before, Plain(xs[0]))] + PlainRoots(xs[1..], "\n")
  }

  lemma {:induction false} PlainAttrsRead(attrs: seq<Attr>, rest: string)
    requires GoodAttrs(attrs)
    ensures AllPlaceable(PlainAttrs(attrs)) && AttrsOf(PlainAttrs(attrs)) == attrs
    ensures WriteAttrs(PlainAttrs(attrs), rest) == PrintAttrs(attrs, rest)
    ensures attrs != [] ==> PlainAttrs(attrs) != [] && PlainAttrs(attrs)[0].before == " "
  {
    if attrs != [] {
      PlainAttrsRead(attrs[1..], rest);
      assert PlainAttrs(attrs)[1..] == PlainAttrs(attrs[1..]);
      var after := PrintAttrs(attrs[1..], rest);
      var quoted := "\"" + (attrs[0].value + ("\"" + after));
      assert "" + ("=" + ("" + (['"'] + (attrs[0].value + (['"'] + after))))) == "=" + quoted;
    }
  }

  lemma {:induction false} PlainReads(x: Node, rest: string)
    requires Good(x)
    ensures Writable(Plain(x)) && Tree(Plain(x)) == Some(x) && Write(Plain(x), rest) == PrintNode(x, rest)
    ensures Matched(Plain(x)) <==> !Declares(x)
    decreases x, 0
  {
    if x.DocType? {
      assert "<!DOCTYPE" == "<!" + "DOCTYPE";
      assert Write(Plain(x), rest) == PrintNode(x, rest);
    }
    if x.Element? {
      if x.children == [] {
        PlainAttrsRead(x.attrs, "/>" + rest);
        assert "" + ("/>" + rest) == "/>" + rest;
      } else {
        var end := "</" + (x.name + (">" + rest));
        PlainAttrsRead(x.attrs, ">" + PrintNodes(x.children, end));
        PlainAllRead(x.children, end);
        assert "" + (">" + rest) == ">" + rest;
        assert "" + (">" + PrintNodes(x.children, end)) == ">" + PrintNodes(x.children, end);
      }
    }
  }

  lemma {:induction false} PlainAllRead(xs: seq<Node>, rest: string)
    requires AllGood(xs)
    ensures AllWritable(PlainAll(xs)) && Trees(PlainAll(xs)) == xs && (AllMatched(PlainAll(xs)) <==> !SomeDeclares(xs))
    ensures WriteAll(PlainAll(xs), rest) == PrintNodes(xs, rest)
    decreases xs, 1
  {
    if xs != [] {
      PlainReads(xs[0], PrintNodes(xs[1..], rest));
      PlainAllRead(xs[1..], rest);
      assert PlainAll(xs)[1..] == PlainAll(xs[1..]);
    }
  }

  lemma {:induction false} PlainRootsRead(xs: seq<Node>, before: string)
    requires GoodDom(xs) && Spaces(before)
    ensures RootsWritable(PlainRoots(xs, before)) && (RootsMatched(PlainRoots(xs, before)) <==> !SomeDeclares(xs))
    ensures RootTrees(PlainRoots(xs, before)) == xs
    ensures WriteRoots(PlainRoots(xs, before), if xs == [] then before else "\n") == before + PrintDom(xs)
  {
    if xs != [] {
      PlainRootsRead(xs[1..], "\n");
      PlainReads(xs[0], "\n" + PrintDom(xs[1..]));
      assert PlainRoots(xs, before)[1..] == PlainRoots(xs[1..], "\n");
    }
  }

  // ----- xml_node_print -----

  class Writer {
    var text: string

    constructor ()
      ensures text == ""
    {
      text := "";
    }

    method Put(s: string, ghost rest: string)
      modifies this
      ensures text + rest == old(text) + (s + rest)
    {
      text := text + s;
    }

    method PutBetween(before: string, value: string, after: string, ghost rest: string)
      modifies this
      ensures text + rest == old(text) + (before + (value + (after + rest)))
    {
      Put(before, value + (after + rest));
      Put(value, after + rest);
      Put(after, rest);
    }

    method PrintElementStart(name: string, attrs: seq<Attr>, ghost rest: string)
      modifies this
      ensures text + rest == old(text) + ("<" + (name + PrintAttrs(attrs, rest)))
    {
      ghost var all := text + ("<" + (name + PrintAttrs(attrs, rest)));
      Put("<", name + PrintAttrs(attrs, rest));
      Put(name, PrintAttrs(attrs, rest));
      ghost var left := attrs;
      for i := 0 to |attrs|
        invariant left == attrs[i..] && text + PrintAttrs(left, rest) == all
      {
        var a := attrs[i];
        ghost var after := PrintAttrs(left[1..], rest);
        Put(" ", PrintAttr(a, after));
        Put(a.name, "=" + ("\"" + (a.value + ("\"" + after))));
        Put("=", "\"" + (a.value + ("\"" + after)));
        Put("\"", a.value + ("\"" + after));
        Put(a.value, "\"" + after);
        Put("\"", after);
        left := left[1..];
      }
    }

    method Print(x: Node, ghost rest: string)
      modifies this
      ensures text + rest == old(text) + PrintNode(x, rest)
      decreases x, 0
    {
      match x
      case Text(value) =>
        Put(value, rest);
      case Prolog(value) =>
        PutBetween("<?", value, "?>", rest);
      case Instruction(value) =>
        PutBetween("<?", value, "?>", rest);
      case CData(value) =>
        PutBetween("<[CDATA[", value, "]]>", rest);
      case DocType(value) =>
        PutBetween("<!DOCTYPE", value, ">", rest);
      case Element(name, attrs, children) =>
        if children == [] {
          PrintElementStart(name, attrs, "/>" + rest);
          Put("/>", rest);
        } else {
          ghost var end := "</" + (name + (">" + rest));
          PrintElementStart(name, attrs, ">" + PrintNodes(children, end));
          Put(">", PrintNodes(children, end));
          PrintList(children, end);
          Put("</", name + (">" + rest));
          Put(name, ">" + rest);
          Put(">", rest);
        }
    }

    method PrintList(xs: seq<Node>, ghost rest: string)
      modifies this
      ensures text + rest == old(text) + PrintNodes(xs, rest)
      decreases xs, 1
    {
      ghost var all, left := text + PrintNodes(xs, rest), xs;
      for i := 0 to |xs|
        invariant left == xs[i..] && text + PrintNodes(left, rest) == all
      {
        Print(xs[i], PrintNodes(left[1..], rest));
        left := left[1..];
      }
    }

    /** xml_node_print of the whole document. */
    method PrintDocument(xs: seq<Node>)
      modifies this
      ensures text == old(text) + PrintDom(xs)
    {
      ghost var all, left := text + PrintDom(xs), xs;
      for i := 0 to |xs|
        invariant left == xs[i..] && text + PrintDom(left) == all
      {
        Print(xs[i], "\n" + PrintDom(left[1..]));
        Put("\n", PrintDom(left[1..]));
        left := left[1..];
      }
    }
  }

  // ----- The reader -----

  /** The characters to come when `c` has been read and `left` remain. */
  function With(c: Option<char>, left: string): string {
    if c.Some? then [c.value] + left else left
  }

  /** What skip_space leaves. */
  function AfterSpace(s: string): string {
    if s != [] && IsSpace(s[0]) then AfterSpace(s[1..]) else s
  }

  /** The name characters at the start of `s`. */
  function NamePart(s: string): (n: nat)
    ensures n <= |s|
  {
    if s != [] && IsNameChar(s[0]) then 1 + NamePart(s[1..]) else 0
  }

  lemma {:induction false} NamePartOf(name: string, rest: string)
    requires forall k | 0 <= k < |name| :: IsNameChar(name[k])
    requires rest == [] || !IsNameChar(rest[0])
    ensures NamePart(name + rest) == |name|
  {
    if name == [] {
      assert name + rest == rest;
    } else {
      NamePartOf(name[1..], rest);
      assert (name + rest)[1..] == name[1..] + rest;
    }
  }

  lemma NameStep(more: string, c: char, left: string)
    requires IsNameChar(c)
    ensures more + ([c] + left) == (more + [c]) + left && NamePart([c] + left) == 1 + NamePart(left)
    ensures forall first: char :: [first] + (more + [c]) == [first] + more + [c]
  {
    assert ([c] + left)[1..] == left;
  }

  lemma FirstOf(a: string, b: string)
    requires a != [] || b != []
    ensures (a + b)[0] == if a != [] then a[0] else b[0]
  {
  }

  class Reader {
    var input: string
    var havePeek: bool
    var peek: Option<char>
    const buf: array<char>

    ghost predicate Valid()
      reads this
    {
      buf.Length == BUF_LEN && (havePeek && peek.None? ==> input == [])
    }

    /** The characters still to be read, the one pushed back first. */
    ghost function Left(): string
      reads this
    {
      if havePeek && peek.Some? then [peek.value] + input else input
    }

    /** strdup(buf). */
    function Buffer(): string
      reads buf
    {
      CString(buf[..])
    }

    lemma BufferIs(s: string)
      requires '\0' !in s && |s| < buf.Length && buf[..|s| + 1] == s + ['\0']
      ensures Buffer() == s
    {
      CStringEnds(s, buf[|s| + 1..]);
      assert buf[..] == buf[..|s| + 1] + buf[|s| + 1..];
    }

    constructor (input: string)
      ensures Valid() && Left() == input && fresh(buf)
    {
      this.input, havePeek, peek := input, false, None;
      buf := new char[BUF_LEN](i => '\0');
    }

    /** get_char; `None` is EOF. */
    method GetChar() returns (c: Option<char>)
      requires Valid()
      modifies this`input, this`havePeek
      ensures Valid() && !havePeek
      ensures old(Left()) == With(c, Left()) && (c.None? ==> Left() == [])
    {
      if havePeek {
        havePeek := false;
        return peek;
      }
      if input == [] {
        return None;
      }
      c := Some(input[0]);
      input := input[1..];
    }

    method UngetChar(c: Option<char>)
      requires Valid() && !havePeek && (c.None? ==> Left() == [])
      modifies this`havePeek, this`peek
      ensures Valid() && Left() == With(c, old(Left()))
    {
      havePeek, peek := true, c;
    }

    method SkipSpace() returns (c: Option<char>)
      requires Valid()
      modifies this`input, this`havePeek
      ensures Valid() && !havePeek
      ensures AfterSpace(old(Left())) == With(c, Left()) && (c.None? ==> Left() == [])
      ensures |Left()| <= |old(Left())| && (c.Some? ==> |Left()| < |old(Left())|)
    {
      ghost var all := Left();
      c := GetChar();
      while c.Some? && IsSpace(c.value)
        invariant Valid() && !havePeek && |With(c, Left())| <= |all|
        invariant AfterSpace(all) == AfterSpace(With(c, Left())) && (c.None? ==> Left() == [])
        decreases |With(c, Left())|
      {
        ghost var was := Left();
        assert ([c.value] + was)[1..] == was;
        c := GetChar();
      }
    }

    /** `*p++ = c`; the program does not check that there is room. */
    method Store(p: nat, c: char) returns (r: Result<()>, q: nat)
      requires Valid() && p <= BUF_LEN
      modifies buf
      ensures r == if p < BUF_LEN then Ok(()) else Fail(Overrun)
      ensures r.Ok? ==> q == p + 1 && buf[..q] == old(buf[..p]) + [c]
    {
      if p >= BUF_LEN {
        return Fail(Overrun), p;
      }
      buf[p] := c;
      r, q := Ok(()), p + 1;
    }

    /** `*p++ = c; c = get_char()`, the step all readers share. */
    method StoreAndGet(p: nat, c: char) returns (r: Result<()>, q: nat, next: Option<char>)
      requires Valid() && p <= BUF_LEN
      modifies this`input, this`havePeek, buf
      ensures Valid()
      ensures r == if p < BUF_LEN then Ok(()) else Fail(Overrun)
      ensures r.Fail? ==> Left() == old(Left())
      ensures r.Ok? ==> q == p + 1 && buf[..q] == old(buf[..p]) + [c] && !havePeek
      ensures r.Ok? ==> old(Left()) == With(next, Left()) && (next.None? ==> Left() == [])
    {
      next := None;
      r, q := Store(p, c);
      if r.Ok? {
        next := GetChar();
      }
    }

    /** read_name: the first character is hardly checked, the others (`more`) follow as long as
        they are name characters; what ends the name is pushed back. */
    method ReadName(c: char) returns (r: Result<()>, ghost more: string)
      requires Valid()
      modifies this, buf
      ensures Valid() && |Left()| <= |old(Left())|
      ensures c == '_' ==> r.Fail?
      ensures r.Fail? ==> r.error == if c == '_' then ReadError else Overrun
      ensures r.Fail? && c != '_' ==> NamePart(old(Left())) + 1 >= BUF_LEN
      ensures r.Ok? ==> old(Left()) == more + Left() && |more| == NamePart(old(Left())) < BUF_LEN - 1
      ensures r.Ok? ==> buf[..|more| + 2] == [c] + more + ['\0']
    {
      more := "";
      if !IsAlpha(c) && c == '_' {
        return Fail(ReadError), more;
      }
      ghost var all := Left();
      var p, next;
      r, p, next := StoreAndGet(0, c);
      assert "" + all == all;
      while next.Some? && IsNameChar(next.value)
        invariant Valid() && !havePeek && (next.None? ==> Left() == [])
        invariant all == more + With(next, Left()) && NamePart(all) == |more| + NamePart(With(next, Left()))
        invariant r.Ok? && p == |more| + 1 <= BUF_LEN && buf[..p] == [c] + more
        decreases |With(next, Left())|
      {
        NameStep(more, next.value, Left());
        more := more + [next.value];
        r, p, next := StoreAndGet(p, next.value);
        if r.Fail? {
          return;
        }
      }
      UngetChar(next);
      r, p := Store(p, '\0');
    }

    /** read_string: everything up to the quote that opened it. */
    method ReadString(c: Option<char>, ghost value: string, ghost rest: string) returns (r: Result<()>)
      requires Valid() && !havePeek
      modifies this, buf
      ensures Valid() && |Left()| <= |old(Left())| && (r.Ok? ==> !havePeek)
      ensures c !in {Some('"'), Some('\'')} ==> r == Fail(ReadError)
      ensures c.Some? && c.value in {'"', '\''} && c.value !in value && |value| < BUF_LEN &&
              old(Left()) == value + ([c.value] + rest) ==>
                r == Ok(()) && Left() == rest && buf[..|value| + 1] == value + ['\0']
    {
      if c != Some('"') && c != Some('\'') {
        return Fail(ReadError);
      }
      ghost var quote := c.value;
      ghost var good := quote !in value && |value| < BUF_LEN && Left() == value + ([quote] + rest);
      ghost var start := |Left()|;
      ghost var seen, todo := "", value;
      var p := 0;
      var next := GetChar();
      while next != c
        invariant Valid() && !havePeek && p == |seen| <= BUF_LEN && |With(next, Left())| <= start
        invariant next.None? ==> Left() == []
        invariant buf[..p] == seen
        invariant good ==> seen + todo == value && quote !in todo && next.Some?
        invariant good ==> [next.value] + Left() == todo + ([quote] + rest)
        decreases |With(next, Left())|
      {
        if next.None? {
          return Fail(ReadError);
        }
        if good {
          NotAtQuote(next.value, Left(), todo, [quote] + rest);
          Move(seen, todo);
          todo := todo[1..];
        }
        seen := seen + [next.value];
        r, p, next := StoreAndGet(p, next.value);
        if r.Fail? {
          return;
        }
      }
      if good {
        AtQuote(quote, Left(), todo, rest);
        assert seen == value;
      }
      r, p := Store(p, '\0');
    }

    /** The text of read_child, up to the next '<'. */
    method ReadText(c: char, ghost value: string, ghost rest: string) returns (r: Result<()>)
      requires Valid() && !havePeek
      modifies this, buf
      ensures Valid() && |Left()| <= |old(Left())| && (r.Ok? ==> !havePeek)
      ensures value != [] && '<' !in value && |value| < BUF_LEN && [c] + old(Left()) == value + ("<" + rest) ==>
                r == Ok(()) && Left() == rest && buf[..|value| + 1] == value + ['\0']
    {
      ghost var good := value != [] && '<' !in value && |value| < BUF_LEN && [c] + Left() == value + ("<" + rest);
      ghost var start := |Left()|;
      ghost var seen, todo := [c], value[if value == [] then 0 else 1..];
      if good {
        FirstOf(value, "<" + rest);
        assert c == ([c] + Left())[0] == value[0];
        NotAtQuote(c, Left(), value, "<" + rest);
        Move("", value);
      }
      var p, next;
      r, p, next := StoreAndGet(0, c);
      if next.None? {
        return Fail(ReadError);
      }
      while next != Some('<')
        invariant Valid() && !havePeek && 1 <= p == |seen| <= BUF_LEN && next.Some? && |Left()| < start
        invariant r.Ok? && buf[..p] == seen
        invariant good ==> seen + todo == value && '<' !in todo
        invariant good ==> [next.value] + Left() == todo + ("<" + rest)
        decreases |Left()|
      {
        if good {
          NotAtQuote(next.value, Left(), todo, "<" + rest);
          Move(seen, todo);
          todo := todo[1..];
        }
        if p >= BUF_LEN - 1 {
          return Fail(ReadError);
        }
        seen := seen + [next.value];
        r, p, next := StoreAndGet(p, next.value);
        if next.None? {
          return Fail(ReadError);
        }
      }
      if good {
        AtQuote('<', Left(), todo, rest);
        assert seen + [] == seen;
      }
      r, p := Store(p, '\0');
    }

    /** A name read in full: `c` is its first character. */
    method ReadWholeName(c: char, ghost name: string, ghost rest: string) returns (r: Result<string>)
      requires Valid()
      modifies this, buf
      ensures Valid() && |Left()| <= |old(Left())|
      ensures GoodName(name) && [c] + old(Left()) == name + rest && (rest == [] || !IsNameChar(rest[0])) ==>
                r == Ok(name) && Left() == rest
    {
      ghost var good := GoodName(name) && [c] + Left() == name + rest && (rest == [] || !IsNameChar(rest[0]));
      ghost var all := Left();
      if good {
        FirstOf(name, rest);
        assert ([c] + all)[0] == c && ([c] + all)[1..] == all && (name + rest)[1..] == name[1..] + rest;
        NamePartOf(name[1..], rest);
        assert c == name[0] && NamePart(all) == |name| - 1;
      }
      var q;
      ghost var more;
      q, more := ReadName(c);
      if q.Fail? {
        return Fail(q.error);
      }
      if good {
        SamePrefix(more, Left(), name[1..], rest);
        assert [c] + name[1..] == name;
        BufferIs(name);
      }
      r := Ok(Buffer());
    }

    /** read_attr from what follows the name on: the '=' and the value. */
    method ReadValue(ghost a: Placed, ghost rest: string) returns (r: Result<string>)
      requires Valid()
      modifies this, buf
      ensures Valid() && |Left()| <= |old(Left())|
      ensures Placeable(a) && old(Left()) == WriteValue(a, rest) ==> r == Ok(a.attr.value) && Left() == rest
    {
      ghost var value := a.attr.value + ([a.quote] + rest);
      ghost var good := Placeable(a) && Left() == WriteValue(a, rest);
      if good {
        ValueBegins(a, [a.quote] + value);
      }
      var d := SkipSpace();
      if good {
        With1(d, Left());
      }
      if d != Some('=') {
        return Fail(ReadError);
      }
      if good {
        SamePrefix(['='], Left(), ['='], a.afterEq + ([a.quote] + value));
      }
      d := SkipSpace();
      if good {
        SamePrefix([d.value], Left(), [a.quote], value);
      }
      var _ :- ReadString(d, a.attr.value, rest);
      if good {
        BufferIs(a.attr.value);
      }
      r := Ok(Buffer());
    }

    /** read_attr. */
    method ReadAttr(c: char, ghost a: Placed, ghost rest: string) returns (r: Result<Attr>)
      requires Valid()
      modifies this, buf
      ensures Valid() && |Left()| <= |old(Left())|
      ensures Placeable(a) && [c] + old(Left()) == WriteAttr(a, rest) ==> r == Ok(a.attr) && Left() == rest
    {
      if Placeable(a) {
        ValueBegins(a, [a.quote] + (a.attr.value + ([a.quote] + rest)));
      }
      var name :- ReadWholeName(c, a.attr.name, WriteValue(a, rest));
      var value :- ReadValue(a, rest);
      r := Ok(Attr(name, value));
    }

    /** The attributes of an element and the end of its start tag: `true` for '>', `false` for
        '/>'. */
    method ReadAttrs(ghost attrs: seq<Placed>, ghost space: string, ghost open: bool, ghost rest: string)
      returns (r: Result<bool>, got: seq<Attr>)
      requires Valid()
      modifies this, buf
      ensures Valid() && |Left()| <= |old(Left())|
      ensures AllPlaceable(attrs) && Spaces(space) && old(Left()) == WriteAttrs(attrs, space + (TagEnd(open) + rest)) ==>
                r == Ok(open) && got == AttrsOf(attrs) && Left() == rest
    {
      got := [];
      ghost var tail := space + (TagEnd(open) + rest);
      ghost var good := AllPlaceable(attrs) && Spaces(space) && Left() == WriteAttrs(attrs, tail);
      ghost var left := attrs;
      while true
        invariant Valid() && |Left()| <= |old(Left())|
        invariant good ==> AllPlaceable(left) && Left() == WriteAttrs(left, tail) && got + AttrsOf(left) == AttrsOf(attrs)
        decreases |Left()|
      {
        if good {
          AttrsBegin(left, space, open, rest);
        }
        var c := SkipSpace();
        if good {
          With1(c, Left());
        }
        if c.None? {
          return Fail(ReadError), got;
        }
        if c.value == '/' {
          c := GetChar();
          if good {
            With1(c, Left());
            Finished(got, AttrsOf(left));
          }
          return if c == Some('>') then Ok(false) else Fail(ReadError), got;
        }
        if c.value == '>' {
          if good {
            Finished(got, AttrsOf(left));
          }
          return Ok(true), got;
        }
        ghost var here := if good then left[0] else Placed("", Attr("", ""), "", "", ' ');
        ghost var after := if good then WriteAttrs(left[1..], tail) else "";
        var a := ReadAttr(c.value, here, after);
        if a.Fail? {
          return Fail(a.error), got;
        }
        if good {
          Shift(got, AttrsOf(left));
          left := left[1..];
        }
        got := got + [a.value];
      }
    }

    /** One piece, which begins with `c`; `cut` when the input ends in it. */
    method ReadPiece(c: char, end: string) returns (piece: string, cut: bool)
      requires Valid() && !havePeek && 1 <= |end| <= 3
      modifies this`input, this`havePeek
      ensures Valid() && !havePeek && |Left()| <= |old(Left())|
      ensures var all, n := [c] + old(Left()), PieceLength([c] + old(Left()), end);
              cut == (n > |all|) && (!cut ==> piece == all[..n] && Left() == all[n..])
    {
      ghost var all := [c] + Left();
      piece, cut := [c], false;
      PieceTwice(all, end);
      if |end| > 1 && c == end[0] {
        var d := GetChar();
        if d.None? {
          return piece, true;
        }
        assert d.value == all[1] && Left() == all[2..];
        piece := piece + [d.value];
        if |end| > 2 && d.value == end[1] {
          d := GetChar();
          if d.None? {
            return piece, true;
          }
          assert d.value == all[2] && Left() == all[3..];
          piece := piece + [d.value];
        }
      }
    }

    /** A comment after its '<!--'. */
    method ReadComment(ghost value: string, ghost rest: string) returns (r: Result<()>)
      requires Valid()
      modifies this`input, this`havePeek
      ensures Valid() && |Left()| <= |old(Left())|
      ensures Apart(value, "-->") && old(Left()) == value + ("-->" + rest) ==> r == Ok(()) && Left() == rest
    {
      ghost var good := Apart(value, "-->") && Left() == value + ("-->" + rest);
      ghost var todo := value;
      var c := GetChar();
      while c.Some?
        invariant Valid() && !havePeek && |With(c, Left())| <= |old(Left())|
        invariant good ==> Apart(todo, "-->") && With(c, Left()) == todo + ("-->" + rest) && c.Some?
        decreases |With(c, Left())|
      {
        if good {
          PieceBegins(With(c, Left()), todo, "-->", rest);
        }
        var piece, cut := ReadPiece(c.value, "-->");
        if cut {
          break;
        }
        if piece == "-->" {
          return Ok(());
        }
        todo := if good then todo[|piece|..] else todo;
        c := GetChar();
      }
      r := Fail(ReadError);
    }

    /** The characters of `word`, one comparison after the other. */
    method ReadWord(word: string, ghost rest: string) returns (found: bool)
      requires Valid()
      modifies this`input, this`havePeek
      ensures Valid() && |Left()| <= |old(Left())|
      ensures old(Left()) == word + rest ==> found && Left() == rest
    {
      ghost var good := Left() == word + rest;
      for i := 0 to |word|
        invariant Valid() && |Left()| <= |old(Left())| && (!old(havePeek) ==> !havePeek)
        invariant good ==> Left() == word[i..] + rest
      {
        if good {
          assert (word[i..] + rest)[0] == word[i] && (word[i..] + rest)[1..] == word[i + 1..] + rest;
        }
        var c := GetChar();
        With1(c, Left());
        if c != Some(word[i]) {
          return false;
        }
      }
      assert word[|word|..] + rest == rest;
      found := true;
    }

    /** `*p++ = c` for each of `cs`. */
    method StoreAll(p: nat, cs: string) returns (r: Result<()>, q: nat)
      requires Valid() && p <= BUF_LEN
      modifies buf
      ensures r == if p + |cs| <= BUF_LEN then Ok(()) else Fail(Overrun)
      ensures r.Ok? ==> q == p + |cs| && buf[..q] == old(buf[..p]) + cs
    {
      r, q := Ok(()), p;
      for i := 0 to |cs|
        invariant q == p + i <= BUF_LEN && r == Ok(()) && buf[..q] == old(buf[..p]) + cs[..i]
      {
        r, q := Store(q, cs[i]);
        if r.Fail? {
          return;
        }
        assert cs[..i] + [cs[i]] == cs[..i + 1];
      }
      assert cs[..|cs|] == cs;
    }

    /** What comes before `end`, into the buffer. */
    method ReadUpTo(end: string, ghost value: string, ghost rest: string) returns (r: Result<nat>)
      requires Valid() && end in {">", "?>", "]]>"}
      modifies this`input, this`havePeek, buf
      ensures Valid() && |Left()| <= |old(Left())|
      ensures r.Ok? ==> r.value <= BUF_LEN
      ensures Apart(value, end) && Storable(value) && old(Left()) == value + (end + rest) ==>
                r == Ok(|value|) && Left() == rest && buf[..|value|] == value
    {
      ghost var good := Apart(value, end) && Storable(value) && Left() == value + (end + rest);
      ghost var seen, todo := "", value;
      var p := 0;
      var c := GetChar();
      while c.Some?
        invariant Valid() && !havePeek && |With(c, Left())| <= |old(Left())|
        invariant p == |seen| <= BUF_LEN && buf[..p] == seen
        invariant good ==> seen + todo == value && Apart(todo, end) && With(c, Left()) == todo + (end + rest) && c.Some?
        decreases |With(c, Left())|
      {
        if good {
          PieceBegins(With(c, Left()), todo, end, rest);
        }
        var piece, cut := ReadPiece(c.value, end);
        if cut {
          break;
        }
        if piece == end {
          if good {
            assert seen + [] == seen;
          }
          return Ok(p);
        }
        if good {
          MovePiece(seen, todo, |piece|);
          todo := todo[|piece|..];
        }
        var stored;
        stored, p := StoreAll(p, piece);
        if stored.Fail? {
          return Fail(stored.error);
        }
        seen := seen + piece;
        c := GetChar();
      }
      r := Fail(ReadError);
    }

    /** `*p = '\0'` and strdup(buf). */
    method Finish(p: nat, ghost value: string) returns (r: Result<string>)
      requires Valid() && p <= BUF_LEN
      modifies buf
      ensures Storable(value) && p == |value| && old(buf[..p]) == value ==> r == Ok(value)
    {
      var done, _ := Store(p, '\0');
      if done.Fail? {
        return Fail(done.error);
      }
      if Storable(value) && p == |value| && old(buf[..p]) == value {
        BufferIs(value);
      }
      r := Ok(Buffer());
    }

    /** What follows '<?': a prolog when the buffer begins with "xml", which for a value of two characters or
        less depends on what it held before. */
    method ReadInstruction(ghost value: string, ghost rest: string) returns (r: Result<Node>)
      requires Valid()
      modifies this`input, this`havePeek, buf
      ensures Valid() && |Left()| <= |old(Left())|
      ensures value !in {"", "x", "xm"} && Apart(value, "?>") && Storable(value) &&
              old(Left()) == value + ("?>" + rest) ==>
                r == Ok(if BeginsXml(value) then Prolog(value) else Instruction(value)) && Left() == rest
    {
      ghost var fits := value !in {"", "x", "xm"} && Apart(value, "?>") && Storable(value);
      ghost var good := fits && Left() == value + ("?>" + rest);
      var p :- ReadUpTo("?>", value, rest);
      if good {
        XmlInBuffer(value);
      }
      var isProlog := buf[0] == 'x' && buf[1] == 'm' && buf[2] == 'l';
      var got :- Finish(p, value);
      r := Ok(if isProlog then Prolog(got) else Instruction(got));
    }

    lemma XmlInBuffer(value: string)
      requires Valid() && value !in {"", "x", "xm"} && |value| < BUF_LEN && buf[..|value|] == value && '\0' !in value
      ensures BeginsXml(value) <==> buf[0] == 'x' && buf[1] == 'm' && buf[2] == 'l'
    {
      assert forall k | 0 <= k < |value| :: value[k] == buf[..|value|][k] == buf[k];
      if |value| >= 3 {
        assert value[..3] == [value[0], value[1], value[2]];
      } else if |value| == 2 {
        assert value == [value[0], value[1]];
      } else {
        assert value == [value[0]];
      }
    }

    /** The rest of a key word, and what stands between it and `end`. */
    method ReadNamed(word: string, end: string, ghost value: string, ghost rest: string) returns (r: Result<string>)
      requires Valid() && end in {">", "]]>"}
      modifies this`input, this`havePeek, buf
      ensures Valid() && |Left()| <= |old(Left())|
      ensures Apart(value, end) && Storable(value) && old(Left()) == word + (value + (end + rest)) ==>
                r == Ok(value) && Left() == rest
    {
      var found := ReadWord(word, value + (end + rest));
      if !found {
        return Fail(ReadError);
      }
      var p :- ReadUpTo(end, value, rest);
      r := Finish(p, value);
    }

    /** What follows '<!'.  The character after the '!' is read and, unless it is a '-', dropped. */
    method ReadBang(ghost x: Markup, ghost rest: string) returns (r: Result<Option<Node>>)
      requires Valid()
      modifies this`input, this`havePeek, buf
      ensures Valid() && |Left()| <= |old(Left())|
      ensures Writable(x) && Banged(x) && "<!" + old(Left()) == Write(x, rest) ==>
                if Matched(x) then r == Ok(Tree(x)) && Left() == rest else r == Fail(ReadError)
    {
      ghost var all := Left();
      ghost var good := Writable(x) && Banged(x) && "<!" + all == Write(x, rest);
      ghost var value := if good then x.value else "";
      if good {
        BangBegins(all, x, rest);
      }
      var c := GetChar();
      var dash := c == Some('-');
      c := GetChar();
      assert |all| >= 2 ==> c == Some(all[1]) && Left() == all[2..];
      if dash {
        if c == Some('-') {
          var _ :- ReadComment(value, rest);
          return Ok(None);
        }
      } else if c == Some('[') {
        var got :- ReadNamed("CDATA[", "]]>", value, rest);
        return Ok(Some(CData(got)));
      } else if c == Some('D') {
        var got :- ReadNamed("OCTYPE", ">", value, rest);
        return Ok(Some(DocType(got)));
      }
      r := Fail(ReadError);
    }

    /** read_element_extra: `None` for a comment, which leaves no node. */
    method ReadElementExtra(c: char, ghost x: Markup, ghost rest: string) returns (r: Result<Option<Node>>)
      requires Valid() && c in {'!', '?'}
      modifies this, buf
      ensures Valid() && |Left()| <= |old(Left())|
      ensures !Tagged(x) && !x.Words? && Writable(x) && ['<', c] + old(Left()) == Write(x, rest) ==>
                if Matched(x) then r == Ok(Tree(x)) && Left() == rest else r == Fail(ReadError)
    {
      ghost var all := Left();
      ghost var good := !Tagged(x) && !x.Words? && Writable(x) && ['<', c] + all == Write(x, rest);
      if good {
        TagBegins(c, all, x, rest);
        assert (['<', c] + all)[2..] == all;
        assert x.Question? ==> Write(x, rest)[2..] == x.value + ("?>" + rest);
        assert c == '!' ==> "<!" + all == ['<', c] + all;
      }
      if c == '!' {
        r := ReadBang(x, rest);
      } else {
        var node :- ReadInstruction(if good then x.value else "", rest);
        r := Ok(Some(node));
      }
    }

    /** read_element after its '<'; `c` is the next character. */
    method ReadElement(c: char, ghost x: Markup, ghost rest: string) returns (r: Result<Option<Node>>)
      requires Valid()
      modifies this, buf
      ensures Valid() && |Left()| <= |old(Left())|
      ensures !x.Words? && Writable(x) && ['<', c] + old(Left()) == Write(x, rest) ==>
                if Matched(x) then r == Ok(Tree(x)) && Left() == rest else r == Fail(ReadError)
      decreases |Left()|, 1
    {
      ghost var good := !x.Words? && Writable(x) && ['<', c] + Left() == Write(x, rest);
      if good {
        TagBegins(c, Left(), x, rest);
      }
      if c == '!' || c == '?' {
        r := ReadElementExtra(c, x, rest);
        return;
      }
      ghost var goal := if good then x else Short("", [], "");
      ghost var kids := if goal.Long? then goal.children else [];
      ghost var body := AfterTag(goal, rest);
      if good {
        ElementBegins(c, Left(), x, rest);
      }
      var name :- ReadWholeName(c, goal.name, WriteAttrs(goal.attrs, goal.space + (TagEnd(goal.Long?) + body)));
      var open, got := ReadAttrs(goal.attrs, goal.space, goal.Long?, body);
      if open.Fail? {
        return Fail(open.error);
      }
      if !open.value {
        return Ok(Some(Element(name, got, [])));
      }
      ghost var end, endSpace := if goal.Long? then goal.end else "", if goal.Long? then goal.endSpace else "";
      var children :- ReadChildren(name, kids, end, endSpace, rest);
      r := Ok(Some(Element(name, got, children)));
    }

    /** The XML_TEXT branch of read_child, up to and with the next '<'. */
    method ReadTextChild(c: char, ghost xs: seq<Markup>, ghost tail: string) returns (r: Result<Node>)
      requires Valid() && !havePeek
      modifies this, buf
      ensures Valid() && |Left()| <= |old(Left())|
      ensures AllWritable(xs) && xs != [] && xs[0].Words? && Tag(tail) && [c] + old(Left()) == WriteAll(xs, tail) ==>
                && r == Ok(Text(xs[0].value)) && ['<'] + Left() == WriteAll(xs[1..], tail)
                && AllWritable(xs[1..]) && (|xs| > 1 ==> !xs[1].Words?)
    {
      ghost var good := AllWritable(xs) && xs != [] && xs[0].Words? && Tag(tail) && [c] + Left() == WriteAll(xs, tail);
      ghost var text := if good then xs[0].value else "";
      ghost var after := if good then WriteAll(xs[1..], tail) else "<";
      if good {
        assert Writable(xs[0]);
        ChildBegins(xs, tail);
        assert ['<'] + after[1..] == after;
      }
      var _ :- ReadText(c, text, if after == [] then "" else after[1..]);
      if good {
        BufferIs(text);
      }
      r := Ok(Text(Buffer()));
    }

    /** read_child and read_markup: the children of an element and its end tag, whose name must be that
        of the element. */
    method ReadChildren(name: string, ghost xs: seq<Markup>, ghost end: string, ghost space: string, ghost rest: string)
      returns (r: Result<seq<Node>>)
      requires Valid()
      modifies this, buf
      ensures Valid() && |Left()| <= |old(Left())|
      ensures AllWritable(xs) && GoodName(end) && Spaces(space) &&
              old(Left()) == WriteAll(xs, EndTag(end, space, rest)) ==>
                if AllMatched(xs) && end == name then r == Ok(Trees(xs)) && Left() == rest else r == Fail(ReadError)
      decreases |Left()|, 0
    {
      var got: seq<Node> := [];
      ghost var tail := EndTag(end, space, rest);
      ghost var good := AllWritable(xs) && GoodName(end) && Spaces(space) && Left() == WriteAll(xs, tail);
      ghost var left := xs;
      while true
        invariant Valid() && |Left()| <= |old(Left())|
        invariant good ==> Ahead(xs, left, got) && Left() == WriteAll(left, tail)
        decreases |Left()|
      {
        ghost var here := |Left()|;
        if good {
          ChildBegins(left, tail);
        }
        var c := GetChar();
        if good {
          With1(c, Left());
        }
        if c != Some('<') {
          if c.None? {
            return Fail(ReadError);
          }
          var t := ReadTextChild(c.value, left, tail);
          if t.Fail? {
            return Fail(t.error);
          }
          if good {
            Passed(xs, left, got);
            left := left[1..];
          }
          got := got + [t.value];
        }
        assert |Left()| < here;
        if good {
          MarkupBegins(left, end, space, rest, Left());
        }
        c := GetChar();
        if good {
          With1(c, Left());
        }
        if c.None? {
          return Fail(ReadError);
        }
        if c.value == '/' {
          r := ReadEndTag(name, end, space, rest);
          if good {
            Finished(got, Trees(left));
          }
          return if r.Fail? then r else Ok(got);
        }
        ghost var next := if good then left[0] else Words("");
        var x := ReadElement(c.value, next, if good then WriteAll(left[1..], tail) else "");
        if x.Fail? {
          return Fail(x.error);
        }
        if good {
          Passed(xs, left, got);
          left := left[1..];
        }
        got := got + Listed(x.value);
      }
    }

    /** After '</': the name must be that of the element. */
    method ReadEndTag(name: string, ghost end: string, ghost space: string, ghost rest: string)
      returns (r: Result<seq<Node>>)
      requires Valid()
      modifies this, buf
      ensures Valid() && |Left()| <= |old(Left())|
      ensures GoodName(end) && Spaces(space) && old(Left()) == end + (space + (">" + rest)) ==>
                if end == name then r == Ok([]) && Left() == rest else r == Fail(ReadError)
    {
      ghost var good := GoodName(end) && Spaces(space) && Left() == end + (space + (">" + rest));
      if good {
        SpacesSkipped(space, ">" + rest);
        FirstOf(end, space + (">" + rest));
      }
      var c := GetChar();
      if c.None? {
        return Fail(ReadError);
      }
      var got :- ReadWholeName(c.value, end, space + (">" + rest));
      if got != name {
        return Fail(ReadError);
      }
      assert (">" + rest)[1..] == rest;
      c := SkipSpace();
      With1(c, Left());
      r := if c == Some('>') then Ok([]) else Fail(ReadError);
    }

    /** The turn of xml_read_document for one root; `c` is what skip_space returned. */
    method ReadRoot(c: char, ghost x: Markup, ghost rest: string) returns (r: Result<Option<Node>>)
      requires Valid()
      modifies this, buf
      ensures Valid() && |Left()| <= |old(Left())|
      ensures c != '<' ==> r == Fail(ReadError)
      ensures !x.Words? && Writable(x) && [c] + old(Left()) == Write(x, rest) ==>
                if Matched(x) then r == Ok(Tree(x)) && Left() == rest else r == Fail(ReadError)
    {
      ghost var all := Left();
      if !x.Words? && Writable(x) && [c] + Left() == Write(x, rest) {
        RootBegins(x, rest);
        assert ([c] + all)[0] == c && |[c] + all| > 1;
      }
      if c != '<' {
        return Fail(ReadError);
      }
      var d := GetChar();
      if d.None? {
        return Fail(ReadError);
      }
      assert ['<', d.value] + Left() == [c] + all;
      r := ReadElement(d.value, x, rest);
    }

    /** xml_read_document: whatever the spaces and quotes, a document of writable elements is read as its
        tree, unless an end tag has another name than its element: then the read fails. */
    method ReadDocument(ghost xs: seq<Root>, ghost last: string) returns (r: Result<seq<Node>>)
      requires Valid()
      modifies this, buf
      ensures Valid()
      ensures RootsWritable(xs) && Spaces(last) && old(Left()) == WriteRoots(xs, last) ==>
                r == if RootsMatched(xs) then Ok(RootTrees(xs)) else Fail(ReadError)
    {
      var got: seq<Node> := [];
      ghost var good := RootsWritable(xs) && Spaces(last) && Left() == WriteRoots(xs, last);
      ghost var left := xs;
      if good {
        RootsBegin(left, last);
      }
      var c := SkipSpace();
      while c.Some?
        invariant Valid() && (c.None? ==> Left() == [])
        invariant good ==> RootsWritable(left) && RootsMatched(left) == RootsMatched(xs)
        invariant good ==> got + RootTrees(left) == RootTrees(xs) && With(c, Left()) == AfterSpace(WriteRoots(left, last))
        decreases |With(c, Left())|
      {
        if good {
          RootsBegin(left, last);
        }
        ghost var here := if good then left[0].element else Words("");
        var x :- ReadRoot(c.value, here, if good then WriteRoots(left[1..], last) else "");
        if good {
          Joined(got, Listed(Tree(left[0].element)), RootTrees(left[1..]));
          left := left[1..];
          RootsBegin(left, last);
        }
        got := got + Listed(x);
        c := SkipSpace();
      }
      if good {
        RootsBegin(left, last);
        Finished(got, RootTrees(left));
      }
      r := Ok(got);
    }
  }

  function EndTag(end: string, space: string, rest: string): string {
    "</" + (end + (space + (">" + rest)))
  }

  /** The children `left` are to come, and `got` are the nodes of those before them. */
  ghost predicate Ahead(xs: seq<Markup>, left: seq<Markup>, got: seq<Node>) {
    AllWritable(left) && got + Trees(left) == Trees(xs) && AllMatched(left) == AllMatched(xs)
  }

  lemma Passed(xs: seq<Markup>, left: seq<Markup>, got: seq<Node>)
    requires Ahead(xs, left, got) && left != [] && Matched(left[0])
    ensures Ahead(xs, left[1..], got + Listed(Tree(left[0])))
  {
    Joined(got, Listed(Tree(left[0])), Trees(left[1..]));
  }

  /** What follows the start tag. */
  function AfterTag(x: Markup, rest: string): string {
    if x.Long? then WriteAll(x.children, EndTag(x.end, x.endSpace, rest)) else rest
  }

  function TagEnd(open: bool): string {
    if open then ">" else "/>"
  }

  predicate Banged(x: Markup) { x.Comment? || x.Section? || x.Declaration? }

  predicate Tagged(x: Markup) { x.Short? || x.Long? }

  /** Text that begins with a tag. */
  predicate Tag(s: string) { s != [] && s[0] == '<' }

  lemma With1(c: Option<char>, left: string)
    ensures c.Some? ==> With(c, left)[0] == c.value && With(c, left)[1..] == left
  {
  }

  lemma {:induction false} SpacesSkipped(space: string, rest: string)
    requires Spaces(space) && rest != [] && !IsSpace(rest[0])
    ensures AfterSpace(space + rest) == rest
    ensures IsNameChar((space + rest)[0]) ==> space == [] && IsNameChar(rest[0])
  {
    if space == [] {
      assert space + rest == rest;
    } else {
      assert IsSpace(space[0]);
      assert (space + rest)[1..] == space[1..] + rest;
      SpacesSkipped(space[1..], rest);
    }
  }

  /** What ends the name of an attribute, and what skip_space finds around its '='. */
  lemma ValueBegins(a: Placed, quoted: string)
    requires Placeable(a) && quoted != [] && quoted[0] == a.quote
    ensures var tail := a.beforeEq + ("=" + (a.afterEq + quoted));
            tail != [] && !IsNameChar(tail[0]) && AfterSpace(tail) == "=" + (a.afterEq + quoted)
    ensures AfterSpace(a.afterEq + quoted) == quoted
  {
    SpacesSkipped(a.beforeEq, "=" + (a.afterEq + quoted));
    SpacesSkipped(a.afterEq, quoted);
  }

  /** What skip_space finds before an attribute or the end of the tag. */
  lemma AttrsBegin(attrs: seq<Placed>, space: string, open: bool, rest: string)
    requires AllPlaceable(attrs) && Spaces(space)
    ensures var end := space + (TagEnd(open) + rest); var s := AfterSpace(WriteAttrs(attrs, end));
            if attrs == [] then s == TagEnd(open) + rest && s[0] == (if open then '>' else '/') &&
                                (if open then s[1..] == rest else s[1..] == ">" + rest)
            else s == WriteAttr(attrs[0], WriteAttrs(attrs[1..], end)) && s != [] && IsNameChar(s[0])
  {
    if attrs == [] {
      SpacesSkipped(space, TagEnd(open) + rest);
    } else {
      var s := WriteAttr(attrs[0], WriteAttrs(attrs[1..], space + (TagEnd(open) + rest)));
      assert s[0] == attrs[0].attr.name[0];
      SpacesSkipped(attrs[0].before, s);
    }
  }

  lemma Written(x: Markup, rest: string)
    requires Tagged(x)
    ensures Write(x, rest) == "<" + (x.name + WriteAttrs(x.attrs, x.space + (TagEnd(x.Long?) + AfterTag(x, rest))))
  {
  }

  /** A space or the end of the tag ends the name of an element. */
  lemma TailBegins(x: Markup, body: string)
    requires Tagged(x) && Writable(x)
    ensures var s := WriteAttrs(x.attrs, x.space + (TagEnd(x.Long?) + body)); s != [] && !IsNameChar(s[0])
  {
    if x.attrs == [] {
      SpacesSkipped(x.space, TagEnd(x.Long?) + body);
    } else {
      assert x.attrs[0].before[0] as int in {9, 10, 11, 12, 13, 32};
    }
  }

  lemma ElementBegins(c: char, left: string, x: Markup, rest: string)
    requires Tagged(x) && Writable(x) && ['<', c] + left == Write(x, rest)
    ensures var s := WriteAttrs(x.attrs, x.space + (TagEnd(x.Long?) + AfterTag(x, rest)));
            [c] + left == x.name + s && s != [] && !IsNameChar(s[0])
    ensures IsNameChar(c) && c != '_'
  {
    Written(x, rest);
    var s := WriteAttrs(x.attrs, x.space + (TagEnd(x.Long?) + AfterTag(x, rest)));
    TailBegins(x, AfterTag(x, rest));
    assert (['<', c] + left)[1..] == [c] + left && ("<" + (x.name + s))[1..] == x.name + s;
    FirstOf(x.name, s);
    assert ([c] + left)[0] == c;
  }

  lemma {:induction false} PieceTwice(s: string, end: string)
    requires s != [] && 1 <= |end| <= 3
    ensures PieceLength(s, end) ==
            if |end| == 1 || s[0] != end[0] then 1 else if |end| == 2 || |s| == 1 || s[1] != end[1] then 2 else 3
  {
    if |end| > 1 && s[0] == end[0] && |s| > 1 {
      assert s[1..][0] == s[1] && end[1..][0] == end[1];
      assert PieceLength(s[1..], end[1..]) ==
             if |end| > 2 && s[1] == end[1] then 1 + PieceLength(s[1..][1..], end[1..][1..]) else 1;
    }
  }

  lemma {:induction false} PieceOfMore(s: string, end: string, more: string)
    requires PieceLength(s, end) <= |s|
    ensures PieceLength(s + more, end) == PieceLength(s, end)
  {
    if |end| > 1 && s != [] && s[0] == end[0] {
      assert (s + more)[1..] == s[1..] + more;
      PieceOfMore(s[1..], end[1..], more);
    }
  }

  /** The piece a reader meets is one of what is left of the value, or the end. */
  lemma {:induction false} PieceBegins(all: string, todo: string, end: string, rest: string)
    requires end in {">", "?>", "]]>", "-->"} && Apart(todo, end) && all == todo + (end + rest)
    ensures var n := PieceLength(all, end);
            n <= |all| && if todo == [] then all[..n] == end && all[n..] == rest
                          else && n <= |todo| && all[..n] == todo[..n] != end && Apart(todo[n..], end)
                               && all[n..] == todo[n..] + (end + rest)
  {
    if todo == [] {
      assert all == end + rest;
      PieceTwice(all, end);
    } else {
      PieceOfMore(todo, end, end + rest);
      var n := PieceLength(todo, end);
      assert all[..n] == todo[..n] && all[n..] == todo[n..] + (end + rest);
    }
  }

  lemma MovePiece(seen: string, cur: string, n: nat)
    requires n <= |cur|
    ensures seen + cur == (seen + cur[..n]) + cur[n..]
  {
  }

  /** The characters after '<!'. */
  lemma BangBegins(left: string, x: Markup, rest: string)
    requires Banged(x) && Writable(x) && "<!" + left == Write(x, rest)
    ensures |left| >= 2 && (left[0] == '-' <==> x.Comment?)
    ensures x.Comment? ==> left[1] == '-' && left[2..] == x.value + ("-->" + rest)
    ensures x.Section? && x.skip != "" ==> left[1] == '[' && left[2..] == "CDATA[" + (x.value + ("]]>" + rest))
    ensures x.Declaration? && x.skip != "" ==> left[1] == 'D' && left[2..] == "OCTYPE" + (x.value + (">" + rest))
    ensures (x.Section? || x.Declaration?) && x.skip == "" ==> left[1] !in {'[', 'D'}
  {
    assert ("<!" + left)[2..] == left;
    match x
    case Comment(value) =>
      assert left == ("<!--" + (value + ("-->" + rest)))[2..];
    case Section(skip, value) =>
      AfterSkip(left, skip, "[CDATA[", value + ("]]>" + rest));
    case Declaration(skip, value) =>
      AfterSkip(left, skip, "DOCTYPE", value + (">" + rest));
  }

  lemma AfterSkip(left: string, skip: string, word: string, more: string)
    requires |skip| <= 1 && |word| > 1 && left == skip + (word + more)
    ensures |left| >= 2
    ensures skip != "" ==> left[0] == skip[0] && left[1] == word[0] && left[2..] == word[1..] + more
    ensures skip == "" ==> left[0] == word[0] && left[1] == word[1]
  {
    if skip != "" {
      assert left[1..] == word + more;
      assert left[2..] == left[1..][1..];
    }
  }

  lemma RootBegins(x: Markup, rest: string)
    requires !x.Words? && Writable(x)
    ensures var s := Write(x, rest);
            && |s| > 1 && s[0] == '<' && s[1] != '/'
            && (s[1] in {'!', '?'} <==> !Tagged(x)) && (s[1] == '?' <==> x.Question?)
  {
    if Tagged(x) {
      Written(x, rest);
      assert Write(x, rest)[1] == x.name[0];
    }
  }

  /** Whether there is an element or other markup shows at the character after '<'. */
  lemma TagBegins(c: char, left: string, x: Markup, rest: string)
    requires !x.Words? && Writable(x) && ['<', c] + left == Write(x, rest)
    ensures c in {'!', '?'} <==> !Tagged(x)
    ensures c == '?' <==> x.Question?
  {
    RootBegins(x, rest);
    assert (['<', c] + left)[1] == c;
  }

  lemma Joined(got: seq<Node>, some: seq<Node>, more: seq<Node>)
    ensures got + (some + more) == (got + some) + more
  {
  }

  /** The first character of what read_child meets. */
  lemma ChildBegins(xs: seq<Markup>, tail: string)
    requires AllWritable(xs) && Tag(tail)
    ensures var s := WriteAll(xs, tail);
            && s != [] && (s[0] == '<' <==> xs == [] || !xs[0].Words?)
            && (xs != [] && xs[0].Words? ==>
                  var t := WriteAll(xs[1..], tail);
                  t != [] && t[0] == '<' && s == xs[0].value + ("<" + t[1..]))
  {
    if xs != [] {
      if xs[0].Words? {
        var t := WriteAll(xs[1..], tail);
        ChildBegins(xs[1..], tail);
        assert t == "<" + t[1..];
        FirstOf(xs[0].value, t);
      } else {
        RootBegins(xs[0], WriteAll(xs[1..], tail));
      }
    }
  }

  /** After '<' comes the end tag or an element. */
  lemma MarkupBegins(xs: seq<Markup>, end: string, space: string, rest: string, left: string)
    requires AllWritable(xs) && (xs == [] || !xs[0].Words?)
    requires ['<'] + left == WriteAll(xs, EndTag(end, space, rest))
    ensures left != []
    ensures xs == [] ==> left[0] == '/' && left[1..] == end + (space + (">" + rest))
    ensures xs != [] ==> left[0] != '/' &&
                         ['<', left[0]] + left[1..] == Write(xs[0], WriteAll(xs[1..], EndTag(end, space, rest)))
  {
    var all := ['<'] + left;
    assert all[1..] == left;
    if xs == [] {
      assert all == EndTag(end, space, rest);
      assert EndTag(end, space, rest)[1..] == "/" + (end + (space + (">" + rest)));
      assert left[1..] == end + (space + (">" + rest));
    } else {
      RootBegins(xs[0], WriteAll(xs[1..], EndTag(end, space, rest)));
      assert all == ['<', left[0]] + left[1..];
    }
  }

  /** What skip_space finds between the roots. */
  lemma RootsBegin(xs: seq<Root>, last: string)
    requires RootsWritable(xs) && Spaces(last)
    ensures AfterSpace(WriteRoots(xs, last)) ==
            if xs == [] then "" else Write(xs[0].element, WriteRoots(xs[1..], last))
    ensures xs != [] ==> AfterSpace(WriteRoots(xs, last)) != []
  {
    if xs == [] {
      OnlySpaces(last);
    } else {
      var rest := WriteRoots(xs[1..], last);
      RootBegins(xs[0].element, rest);
      SpacesSkipped(xs[0].before, Write(xs[0].element, rest));
    }
  }

  lemma {:induction false} OnlySpaces(s: string)
    requires Spaces(s)
    ensures AfterSpace(s) == ""
  {
    if s != [] {
      assert IsSpace(s[0]);
      OnlySpaces(s[1..]);
    }
  }

  lemma Move(seen: string, cur: string)
    requires cur != []
    ensures seen + cur == (seen + [cur[0]]) + cur[1..]
  {
  }

  lemma NotAtQuote(c: char, left: string, todo: string, tail: string)
    requires [c] + left == todo + tail && tail != [] && c != tail[0]
    ensures todo != [] && todo[0] == c && left == todo[1..] + tail
  {
    FirstOf(todo, tail);
    assert ([c] + left)[0] == c && ([c] + left)[1..] == left;
    assert (todo + tail)[1..] == todo[1..] + tail;
  }

  lemma AtQuote(c: char, left: string, todo: string, rest: string)
    requires [c] + left == todo + ([c] + rest) && c !in todo
    ensures todo == [] && left == rest
  {
    FirstOf(todo, [c] + rest);
    assert ([c] + left)[0] == c && ([c] + left)[1..] == left;
    assert todo + ([c] + rest) == [c] + rest;
    assert ([c] + rest)[1..] == rest;
  }

  /** A document read from its characters, which may be written in any way. */
  method ReadWritten(text: string, ghost xs: seq<Root>, ghost last: string) returns (r: Result<seq<Node>>)
    requires RootsWritable(xs) && Spaces(last) && text == WriteRoots(xs, last)
    ensures r == if RootsMatched(xs) then Ok(RootTrees(xs)) else Fail(ReadError)
  {
    var inp := new Reader(text);
    r := inp.ReadDocument(xs, last);
  }

  /** An attribute as the documented host files have it. */
  lemma NameIsWritten(rest: string)
    ensures var a := Placed(" ", Attr("name", "alice"), "", "", '"');
            a.before + WriteAttr(a, rest) == " name=\"alice\"" + rest
  {
    var quoted := "\"alice\"" + rest;
    assert ['"'] + ("alice" + (['"'] + rest)) == quoted;
    assert "" + ("=" + ("" + quoted)) == "=" + quoted;
    assert "name" + ("=" + quoted) == "name=\"alice\"" + rest;
  }

  lemma HostIsWritten()
    ensures var x := Short("Host", [Placed(" ", Attr("name", "alice"), "", "", '"')], " ");
            Write(x, "") == "<Host name=\"alice\" />"
  {
    var a := Placed(" ", Attr("name", "alice"), "", "", '"');
    NameIsWritten(" " + ("/>" + ""));
    assert WriteAttrs([a], " " + ("/>" + "")) == " name=\"alice\" />";
  }

  lemma HostIsWritable()
    ensures var x := Short("Host", [Placed(" ", Attr("name", "alice"), "", "", '"')], " ");
            Writable(x) && Tree(x) == Some(Element("Host", [Attr("name", "alice")], []))
  {
    var a := Placed(" ", Attr("name", "alice"), "", "", '"');
    assert GoodName(a.attr.name) && Placeable(a);
    assert [a][1..] == [];
    assert AttrsOf([a]) == [Attr("name", "alice")];
  }

  lemma OneRoot(x: Markup)
    requires !x.Words? && Writable(x) && Matched(x)
    ensures var xs := [Root("", x)];
            && RootsWritable(xs) && RootsMatched(xs) && RootTrees(xs) == Listed(Tree(x))
            && WriteRoots(xs, "") == Write(x, "")
  {
    assert [Root("", x)][1..] == [];
  }

  /** A host as the documented host files have it: a space before the end of the tag. */
  method ReadHost() returns (r: Result<seq<Node>>)
    ensures r == Ok([Element("Host", [Attr("name", "alice")], [])])
  {
    ghost var host := Short("Host", [Placed(" ", Attr("name", "alice"), "", "", '"')], " ");
    HostIsWritten();
    HostIsWritable();
    OneRoot(host);
    r := ReadWritten("<Host name=\"alice\" />", [Root("", host)], "");
  }

  /** Reading what was printed gives the same tree, for documents of good elements. */
  method PrintThenRead(xs: seq<Node>) returns (r: Result<seq<Node>>)
    requires GoodDom(xs)
    ensures r == if SomeDeclares(xs) then Fail(ReadError) else Ok(xs)
  {
    var out := new Writer();
    out.PrintDocument(xs);
    assert out.text == "" + PrintDom(xs) == PrintDom(xs);
    PlainRootsRead(xs, "");
    r := ReadWritten(out.text, PlainRoots(xs, ""), if xs == [] then "" else "\n");
  }
}
