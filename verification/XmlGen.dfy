/**
 XMLGen.fuzz of fusil/fusil/xmlgen.py on the level of tags: which tags it opens and closes, and
 which attributes each tag gets.  Every random choice is arbitrary.
 */
module XmlGen {

  datatype Token =
    | Open(tag: string, attributes: seq<string>)
    | SelfClosed(tag: string, attributes: seq<string>)
    | Close(tag: string)
    | Text

  datatype Nesting = Broken | Within(stack: seq<string>)

  /** The tags that are open after the tokens, innermost last; a closing tag must match the innermost. */
  function Nest(stack: seq<string>, tokens: seq<Token>): Nesting {
    if tokens == [] then Within(stack)
    else
      match (Nest(stack, tokens[..|tokens| - 1]), tokens[|tokens| - 1])
      case (Broken, _) => Broken
      case (Within(s), Open(tag, _)) => Within(s + [tag])
      case (Within(s), Close(tag)) =>
        if s != [] && s[|s| - 1] == tag then Within(s[..|s| - 1]) else Broken
      case (Within(s), _) => Within(s)
  }

  ghost predicate WellNested(tokens: seq<Token>) {
    Nest([], tokens) == Within([])
  }

  ghost predicate Distinct(names: seq<string>) {
    forall i, j | 0 <= i < j < |names| :: names[i] != names[j]
  }

  /** No tag repeats an attribute. */
  ghost predicate AttributesDistinct(tokens: seq<Token>) {
    forall i | 0 <= i < |tokens| :: (tokens[i].Open? || tokens[i].SelfClosed?) ==> Distinct(tokens[i].attributes)
  }

  /** Every tag is that of a known element, with attributes from the element's list: one at least, if it can be. */
  ghost predicate TagsKnown(elems: map<string, seq<string>>, tokens: seq<Token>) {
    forall i | 0 <= i < |tokens| && (tokens[i].Open? || tokens[i].SelfClosed?) ::
      && tokens[i].tag in elems && (forall a | a in tokens[i].attributes :: a in elems[tokens[i].tag])
      && |tokens[i].attributes| <= 7 && (tokens[i].attributes == [] ==> elems[tokens[i].tag] == [])
  }

  lemma {:induction false} NestConcat(stack: seq<string>, a: seq<Token>, b: seq<Token>)
    ensures Nest(stack, a + b) == if Nest(stack, a).Broken? then Broken else Nest(Nest(stack, a).stack, b)
  {
    if b == [] {
      assert a + b == a;
    } else {
      NestConcat(stack, a, b[..|b| - 1]);
      assert (a + b)[..|a + b| - 1] == a + b[..|b| - 1];
    }
  }

  /** Tokens nest above any open tags as they nest on their own. */
  lemma {:induction false} NestAbove(below: seq<string>, stack: seq<string>, tokens: seq<Token>)
    requires Nest(stack, tokens).Within?
    ensures Nest(below + stack, tokens) == Within(below + Nest(stack, tokens).stack)
  {
    if tokens != [] {
      var front := tokens[..|tokens| - 1];
      NestAbove(below, stack, front);
      var s := Nest(stack, front).stack;
      match tokens[|tokens| - 1]
      case Open(tag, _) => assert below + s + [tag] == below + (s + [tag]);
      case Close(_) => assert (below + s)[..|below + s| - 1] == below + s[..|s| - 1];
      case _ =>
    }
  }

  lemma NestOne(stack: seq<string>, tokens: seq<Token>, token: Token)
    requires Nest(stack, tokens).Within?
    ensures var s := Nest(stack, tokens).stack;
      Nest(stack, tokens + [token]) ==
        match token
        case Open(tag, _) => Within(s + [tag])
        case Close(tag) => if s != [] && s[|s| - 1] == tag then Within(s[..|s| - 1]) else Broken
        case _ => Within(s)
  {
    assert (tokens + [token])[..|tokens|] == tokens;
  }

  /** The tags that the tokens start, self-closed ones included. */
  function StartTags(tokens: seq<Token>): seq<string> {
    if tokens == [] then []
    else
      var front, last := StartTags(tokens[..|tokens| - 1]), tokens[|tokens| - 1];
      if last.Open? || last.SelfClosed? then front + [last.tag] else front
  }

  lemma {:induction false} StartTagsConcat(a: seq<Token>, b: seq<Token>)
    ensures StartTags(a + b) == StartTags(a) + StartTags(b)
  {
    if b == [] {
      assert a + b == a;
    } else {
      StartTagsConcat(a, b[..|b| - 1]);
      assert (a + b)[..|a + b| - 1] == a + b[..|b| - 1];
    }
  }

  lemma StartTagsOne(tokens: seq<Token>, token: Token)
    ensures StartTags(tokens + [token]) ==
      StartTags(tokens) + if token.Open? || token.SelfClosed? then [token.tag] else []
  {
    assert (tokens + [token])[..|tokens|] == tokens;
  }

  function Wrap(tag: string, attributes: seq<string>, tokens: seq<Token>): seq<Token> {
    [Open(tag, attributes)] + tokens + [Close(tag)]
  }

  /** Wrapping well-nested tokens in a tag keeps them well nested. */
  lemma WrapStaysNested(tag: string, attributes: seq<string>, tokens: seq<Token>)
    requires WellNested(tokens)
    ensures WellNested(Wrap(tag, attributes, tokens))
    ensures StartTags(Wrap(tag, attributes, tokens)) == [tag] + StartTags(tokens)
  {
    var start := [Open(tag, attributes)];
    assert start[..0] == [] && [] + [tag] == [tag] + [] == [tag];
    StartTagsOne([], start[0]);
    assert Nest([], start) == Within([tag]) && [] + start == start;
    NestConcat([], start, tokens);
    StartTagsConcat(start, tokens);
    NestAbove([tag], [], tokens);
    assert Nest([], start + tokens) == Within([tag]);
    NestOne([], start + tokens, Close(tag));
    StartTagsOne(start + tokens, Close(tag));
  }

  function Head(): seq<Token> {
    Wrap("head", [], Wrap("style", ["type"], [Text]))
  }

  lemma TextIsNested()
    ensures WellNested([Text]) && StartTags([Text]) == []
  {
    NestOne([], [], Text);
    StartTagsOne([], Text);
    assert [] + [Text] == [Text];
  }

  lemma HeadIsNested()
    ensures WellNested(Head()) && StartTags(Head()) == ["head", "style"] && AttributesDistinct(Head())
  {
    TextIsNested();
    var style := Wrap("style", ["type"], [Text]);
    WrapStaysNested("style", ["type"], [Text]);
    WrapStaysNested("head", [], style);
    assert ["head"] + ["style"] + [] == ["head", "style"];
  }

  lemma AfterHead(head: seq<Token>, body: seq<Token>)
    requires WellNested(head) && WellNested(body) && AttributesDistinct(head) && AttributesDistinct(body)
    ensures WellNested(head + body) && AttributesDistinct(head + body)
    ensures StartTags(head + body) == StartTags(head) + StartTags(body)
  {
    NestConcat([], head, body);
    StartTagsConcat(head, body);
  }

  lemma WrapKeepsDistinct(tag: string, attributes: seq<string>, tokens: seq<Token>)
    requires AttributesDistinct(tokens) && Distinct(attributes)
    ensures AttributesDistinct(Wrap(tag, attributes, tokens))
  {
  }

  /**
   The document is the root element around the elements, which are well nested on their own; with
   XHTML, the head comes before them, and there may be a body element around them and nothing else.
   */
  ghost predicate IsDocument(xhtml: bool, elements: seq<Token>, data: seq<Token>) {
    && WellNested(elements)
    && if xhtml then
         data == HtmlStart() + elements + [Close("html")]
         || data == HtmlStart() + [Open("body", [])] + elements + [Close("body"), Close("html")]
       else data == [Open("svg", ["xmlns", "version"])] + elements + [Close("svg")]
  }

  function HtmlStart(): seq<Token> {
    [Open("html", []), Open("head", []), Open("style", ["type"]), Text, Close("style"), Close("head")]
  }

  /** The root element around the body, after the head where there is one. */
  method Document(xhtml: bool, body: seq<Token>) returns (r: seq<Token>)
    requires WellNested(body) && AttributesDistinct(body)
    ensures WellNested(r) && AttributesDistinct(r)
    ensures r == if xhtml then HtmlStart() + body + [Close("html")]
                 else [Open("svg", ["xmlns", "version"])] + body + [Close("svg")]
    ensures StartTags(r) == (if xhtml then ["html", "head", "style"] else ["svg"]) + StartTags(body)
  {
    if xhtml {
      HeadIsNested();
      var head := Head();
      AfterHead(head, body);
      WrapStaysNested("html", [], head + body);
      WrapKeepsDistinct("html", [], head + body);
      r := Wrap("html", [], head + body);
      HtmlTokens(body);
    } else {
      WrapStaysNested("svg", ["xmlns", "version"], body);
      WrapKeepsDistinct("svg", ["xmlns", "version"], body);
      r := Wrap("svg", ["xmlns", "version"], body);
    }
  }

  lemma HtmlTokens(body: seq<Token>)
    ensures Wrap("html", [], Head() + body) == HtmlStart() + body + [Close("html")]
  {
    assert Head() == HtmlStart()[1..];
  }

  method StartTag(stack: seq<string>, first: Token) returns (data: seq<Token>)
    requires first.Open? || first.SelfClosed?
    ensures data == [first] && StartTags(data) == [first.tag]
    ensures Nest(stack, data) == Within(if first.Open? then stack + [first.tag] else stack)
  {
    NestOne(stack, [], first);
    StartTagsOne([], first);
    data := [] + [first];
  }

  class XMLGen {
    const xhtml: bool
    const elems: map<string, seq<string>>
    var toend: seq<string>

    constructor (elems: map<string, seq<string>>, xhtml: bool)
      ensures this.elems == elems && this.xhtml == xhtml && toend == []
    {
      this.elems, this.xhtml, toend := elems, xhtml, [];
    }

    /**
     Up to nattr attributes of the element, no two alike.  The retry loop of the original never
     ends once all names of a list that repeats some are taken: hangs.
     */
    method ChooseAttributes(elem: string, nattr: nat) returns (attrDone: seq<string>, hangs: bool)
      requires elem in elems
      ensures Distinct(attrDone) && forall a | a in attrDone :: a in elems[elem]
      ensures |attrDone| <= nattr && |attrDone| <= |elems[elem]|
      ensures !hangs && |attrDone| < nattr ==> |attrDone| == |elems[elem]|
      ensures hangs <==> Hangs(elems[elem], nattr)
    {
      var names := elems[elem];
      attrDone, hangs := [], false;
      for ii := 0 to nattr
        invariant |attrDone| == ii <= |names| && Distinct(attrDone) && forall a | a in attrDone :: a in names
      {
        DoneSize(names, attrDone);
        if |attrDone| == |names| {
          return;
        }
        if forall a | a in names :: a in attrDone {
          hangs := true;
          return;
        }
        var i :| 0 <= i < |names| && names[i] !in attrDone;
        attrDone := attrDone + [names[i]];
      }
      DoneSize(names, attrDone);
    }

    /** The start tag of an element, which stays open or not, and perhaps some text in it. */
    method StartElement(elem: string, attributes: seq<string>) returns (data: seq<Token>)
      requires Distinct(attributes)
      modifies this
      ensures AttributesDistinct(data) && Nest(old(toend), data) == Within(toend) && StartTags(data) == [elem]
      ensures forall i | 0 <= i < |data| && (data[i].Open? || data[i].SelfClosed?) ::
        data[i].tag == elem && data[i].attributes == attributes
    {
      var end: bool := *;
      if end {
        data := StartTag(toend, SelfClosed(elem, attributes));
      } else {
        data := StartTag(toend, Open(elem, attributes));
        toend := toend + [elem];
        var addText: bool := *;
        if addText {
          NestOne(old(toend), data, Text);
          StartTagsOne(data, Text);
          data := data + [Text];
        }
      }
    }

    /** One element: its start tag, and then some closing tags of open elements. */
    method Element(elem: string) returns (data: seq<Token>, hangs: bool)
      requires elem in elems
      modifies this
      ensures AttributesDistinct(data)
      ensures !hangs ==> Nest(old(toend), data) == Within(toend) && StartTags(data) == [elem]
      ensures TagsKnown(elems, data)
      ensures NeverHangs(elems[elem]) ==> !hangs
    {
      var nattr: int :| 1 <= nattr <= 7;
      var attrDone;
      attrDone, hangs := ChooseAttributes(elem, nattr);
      data := [];
      if hangs {
        NeverHangsIff(elems[elem]);
        return;
      }
      data := StartElement(elem, attrDone);
      var closeSome: bool := *;
      if |toend| > 0 && closeSome {
        var n: int :| 0 <= n <= |toend|;
        var closing := CloseTags(n);
        NestConcat(old(toend), data, closing);
        StartTagsConcat(data, closing);
        data := data + closing;
      }
    }

    /** Pops and closes the n innermost open elements. */
    method CloseTags(n: nat) returns (data: seq<Token>)
      requires n <= |toend|
      modifies this
      ensures toend == old(toend)[..|old(toend)| - n]
      ensures Nest(old(toend), data) == Within(toend) && AttributesDistinct(data) && StartTags(data) == []
      ensures forall i | 0 <= i < |data| :: data[i].Close?
    {
      data := [];
      for ii := 0 to n
        invariant toend == old(toend)[..|old(toend)| - ii]
        invariant Nest(old(toend), data) == Within(toend) && AttributesDistinct(data) && StartTags(data) == []
        invariant forall i | 0 <= i < |data| :: data[i].Close?
      {
        var elem := toend[|toend| - 1];
        NestOne(old(toend), data, Close(elem));
        StartTagsOne(data, Close(elem));
        toend := toend[..|toend| - 1];
        data := data + [Close(elem)];
      }
    }

    /** Random elements, and the ones that were picked; object and applet elements are skipped. */
    method FuzzElements(nelem: nat) returns (data: seq<Token>, picked: seq<string>, hangs: bool)
      requires toend == [] && elems != map[]
      modifies this
      ensures AttributesDistinct(data) && TagsKnown(elems, data)
      ensures |picked| <= nelem && forall e | e in picked :: e in elems && e != "object" && e != "applet"
      ensures !hangs ==> Nest([], data) == Within(toend) && StartTags(data) == picked
      ensures hangs ==> picked != [] && !NeverHangs(elems[picked[|picked| - 1]])
    {
      data, picked, hangs := [], [], false;
      for i := 0 to nelem
        invariant AttributesDistinct(data) && TagsKnown(elems, data)
        invariant Nest([], data) == Within(toend) && StartTags(data) == picked
        invariant |picked| <= i && forall e | e in picked :: e in elems && e != "object" && e != "applet"
      {
        var elem :| elem in elems;
        if elem == "object" || elem == "applet" {
          continue;
        }
        picked := picked + [elem];
        var more;
        more, hangs := Element(elem);
        if hangs {
          return;
        }
        NestConcat([], data, more);
        StartTagsConcat(data, more);
        data := data + more;
      }
    }

    /** Closes every element that is still open. */
    method CloseAll(elements: seq<Token>) returns (data: seq<Token>)
      requires Nest([], elements) == Within(toend) && AttributesDistinct(elements) && TagsKnown(elems, elements)
      modifies this
      ensures toend == [] && WellNested(data) && AttributesDistinct(data) && TagsKnown(elems, data)
      ensures StartTags(data) == StartTags(elements)
    {
      var closing := CloseTags(|toend|);
      NestConcat([], elements, closing);
      StartTagsConcat(elements, closing);
      data := elements + closing;
    }

    /** The body element, where one is drawn, and the root element around the elements. */
    method Enclose(body: bool, elements: seq<Token>) returns (data: seq<Token>)
      requires body ==> xhtml
      requires WellNested(elements) && AttributesDistinct(elements)
      ensures WellNested(data) && AttributesDistinct(data) && IsDocument(xhtml, elements, data)
    {
      if body {
        WrapStaysNested("body", [], elements);
        data := Document(xhtml, Wrap("body", [], elements));
        assert data == HtmlStart() + [Open("body", [])] + elements + [Close("body"), Close("html")];
      } else {
        data := Document(xhtml, elements);
      }
    }

    /**
     The document, the elements that were picked for it and, for them, the part inside the root
     element; the header and the text of the style sheet are left out.
     */
    method Fuzz() returns (data: seq<Token>, picked: seq<string>, hangs: bool, ghost elements: seq<Token>)
      requires toend == [] && elems != map[]
      modifies this
      ensures !hangs ==> WellNested(data) && AttributesDistinct(data) && toend == []
      ensures !hangs ==> IsDocument(xhtml, elements, data)
      ensures !hangs ==> StartTags(elements) == picked && TagsKnown(elems, elements)
      ensures |picked| <= 20 && forall e | e in picked :: e in elems && e != "object" && e != "applet"
      ensures hangs ==> picked != [] && !NeverHangs(elems[picked[|picked| - 1]])
    {
      var body: bool := *;
      body := body && xhtml;
      var nelem: int :| 1 <= nelem <= 20;
      elements := [];
      data, picked, hangs := FuzzElements(nelem);
      if hangs {
        return;
      }
      data := CloseAll(data);
      elements := data;
      data := Enclose(body, data);
    }
  }

  ghost function Elements(names: seq<string>): set<string> {
    set name | name in names
  }

  lemma {:induction false} DistinctSize(names: seq<string>)
    ensures |Elements(names)| <= |names|
    ensures |Elements(names)| == |names| <==> Distinct(names)
  {
    if names != [] {
      var front, last := names[..|names| - 1], names[|names| - 1];
      DistinctSize(front);
      assert Elements(names) == Elements(front) + {last};
      assert names == front + [last];
    }
  }

  /** Distinct entries of a list are no more than it has elements, and as many when they are all taken. */
  lemma DoneSize(names: seq<string>, done: seq<string>)
    requires Distinct(done) && forall a | a in done :: a in names
    ensures |done| <= |Elements(names)| <= |names|
    ensures (forall a | a in names :: a in done) ==> |done| == |Elements(names)|
  {
    DistinctSize(names);
    DistinctSize(done);
    assert Elements(names) == Elements(done) + (Elements(names) - Elements(done));
  }

  /** The retry loop does not end when this many attributes are drawn from the list. */
  ghost predicate Hangs(names: seq<string>, nattr: nat) {
    |Elements(names)| < nattr && |Elements(names)| < |names|
  }

  /** Lists without repeated names, and lists of at least seven different names. */
  ghost predicate NeverHangs(names: seq<string>) {
    Distinct(names) || |Elements(names)| >= 7
  }

  /** These are exactly the lists for which the retry loop ends whatever number of attributes is drawn. */
  lemma NeverHangsIff(names: seq<string>)
    ensures NeverHangs(names) <==> forall nattr | 1 <= nattr <= 7 :: !Hangs(names, nattr)
  {
    DistinctSize(names);
    if !NeverHangs(names) {
      assert Hangs(names, |Elements(names)| + 1);
    }
  }

  /** A list that hangs: one name twice, with any two or more attributes drawn. */
  lemma TwiceTheSameHangs(name: string, nattr: nat)
    requires nattr >= 2
    ensures Hangs([name, name], nattr) && !NeverHangs([name, name])
  {
    assert Elements([name, name]) == {name};
    assert [name, name][0] == [name, name][1];
  }
}
