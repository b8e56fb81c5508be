/** XML as element trees, and the escaping of character data and attribute values. */
module Xml {
  import opened Wrappers
  import opened Text

  /** A local name and, for prefixed names, its namespace. */
  datatype Name = Name(space: string, local: string)

  datatype Attribute = Attribute(name: Name, value: string)

  datatype Node =
    | Element(name: Name, attributes: seq<Attribute>, children: seq<Node>)
    | Chars(text: string)

  /** Tag tests without a namespace compare local names only. */
  predicate HasTag(node: Node, local: string) {
    node.Element? && node.name.local == local
  }

  /** The first attribute with this local name, in any namespace. */
  function AttrAny(attributes: seq<Attribute>, local: string): Option<string> {
    if attributes == [] then None
    else if attributes[0].name.local == local then Some(attributes[0].value)
    else AttrAny(attributes[1..], local)
  }

  /** The first attribute with this local name and namespace. */
  function AttrNs(attributes: seq<Attribute>, space: string, local: string): Option<string> {
    if attributes == [] then None
    else if attributes[0].name == Name(space, local) then Some(attributes[0].value)
    else AttrNs(attributes[1..], space, local)
  }

  function AttributesOf(node: Node): seq<Attribute> {
    if node.Element? then node.attributes else []
  }

  function ChildrenOf(node: Node): seq<Node> {
    if node.Element? then node.children else []
  }

  lemma {:induction false} AttrNsAt(attributes: seq<Attribute>, i: nat, space: string, local: string)
    requires i < |attributes| && attributes[i].name == Name(space, local)
    requires forall j :: 0 <= j < i ==> attributes[j].name != Name(space, local)
    ensures AttrNs(attributes, space, local) == Some(attributes[i].value)
  {
    if i > 0 {
      AttrNsAt(attributes[1..], i - 1, space, local);
    }
  }

  lemma {:induction false} AttrAnyAt(attributes: seq<Attribute>, i: nat, local: string)
    requires i < |attributes| && attributes[i].name.local == local
    requires forall j :: 0 <= j < i ==> attributes[j].name.local != local
    ensures AttrAny(attributes, local) == Some(attributes[i].value)
  {
    if i > 0 {
      AttrAnyAt(attributes[1..], i - 1, local);
    }
  }

  lemma {:induction false} AttrAnyNone(attributes: seq<Attribute>, space: string, local: string)
    requires forall j :: 0 <= j < |attributes| ==> attributes[j].name.local != local
    ensures AttrAny(attributes, local) == None && AttrNs(attributes, space, local) == None
  {
    if attributes != [] {
      AttrAnyNone(attributes[1..], space, local);
    }
  }

  /** The text of a text node, or of an element's first child when that is text. */
  function TextOf(node: Node): Option<string> {
    match node
    case Chars(text) => Some(text)
    case Element(_, _, children) =>
      if children != [] && children[0].Chars? then Some(children[0].text) else None
  }

  /** Empty character data leaves no text node behind. */
  function CharData(text: string): seq<Node> {
    if text == [] then [] else [Chars(text)]
  }

  /** The node and everything below it, in document order. */
  function Descendants(node: Node): seq<Node>
    decreases node, 1, 0
  {
    [node] + if node.Element? then BelowFrom(node, 0) else []
  }

  function BelowFrom(node: Node, k: nat): seq<Node>
    requires node.Element? && k <= |node.children|
    decreases node, 0, |node.children| - k
  {
    if k == |node.children| then [] else Descendants(node.children[k]) + BelowFrom(node, k + 1)
  }

  // ---------------------------------------------------------------- escaping

  function EscapeText(text: string): string {
    Replace(Replace(Replace(text, '&', "&amp;"), '<', "&lt;"), '>', "&gt;")
  }

  function EscapeAttr(text: string): string {
    Replace(Replace(EscapeText(text), '"', "&quot;"), '\'', "&apos;")
  }

  /** A predefined entity of XML 1.0, section 4.6, with the character it stands for. */
  function EntityAt(s: string): Option<(string, char)> {
    if StartsWith(s, "&amp;") then Some(("&amp;", '&'))
    else if StartsWith(s, "&lt;") then Some(("&lt;", '<'))
    else if StartsWith(s, "&gt;") then Some(("&gt;", '>'))
    else if StartsWith(s, "&quot;") then Some(("&quot;", '"'))
    else if StartsWith(s, "&apos;") then Some(("&apos;", '\''))
    else None
  }

  /**
   Reading character data, or the inside of a double-quoted attribute value: a bare `&` or `<`, or
   a bare `"` in an attribute, is an error.
   */
  function Unescape(s: string, inAttribute: bool): Option<string>
    decreases |s|
  {
    if s == [] then Some([])
    else if s[0] == '&' then
      (match EntityAt(s)
       case None => None
       case Some((entity, c)) => Prepend(c, Unescape(s[|entity|..], inAttribute)))
    else if s[0] == '<' || (inAttribute && s[0] == '"') then None
    else Prepend(s[0], Unescape(s[1..], inAttribute))
  }

  function Prepend(c: char, rest: Option<string>): Option<string> {
    match rest
    case None => None
    case Some(tail) => Some([c] + tail)
  }

  /** What the chain of replacements does to one character. */
  function EscapeChar(c: char, inAttribute: bool): string {
    if c == '&' then "&amp;"
    else if c == '<' then "&lt;"
    else if c == '>' then "&gt;"
    else if inAttribute && c == '"' then "&quot;"
    else if inAttribute && c == '\'' then "&apos;"
    else [c]
  }

  function Escape(text: string, inAttribute: bool): string {
    if inAttribute then EscapeAttr(text) else EscapeText(text)
  }

  lemma EscapeOne(c: char)
    ensures EscapeText([c]) == EscapeChar(c, false)
    ensures EscapeAttr([c]) == EscapeChar(c, true)
  {
    hide Replace;
    ReplaceOne(c, '&', "&amp;");
    ReplaceOne(c, '<', "&lt;");
    ReplaceOne(c, '>', "&gt;");
    ReplaceOne(c, '"', "&quot;");
    ReplaceOne(c, '\'', "&apos;");
    ReplaceAbsent("&amp;", '<', "&lt;");
    ReplaceAbsent("&amp;", '>', "&gt;");
    ReplaceAbsent("&amp;", '"', "&quot;");
    ReplaceAbsent("&amp;", '\'', "&apos;");
    ReplaceAbsent("&lt;", '>', "&gt;");
    ReplaceAbsent("&lt;", '"', "&quot;");
    ReplaceAbsent("&lt;", '\'', "&apos;");
    ReplaceAbsent("&gt;", '"', "&quot;");
    ReplaceAbsent("&gt;", '\'', "&apos;");
    ReplaceAbsent("&quot;", '\'', "&apos;");
  }

  lemma EscapeTextConcat(a: string, b: string)
    ensures EscapeText(a + b) == EscapeText(a) + EscapeText(b)
  {
    hide Replace;
    ReplaceConcat(a, b, '&', "&amp;");
    var a1, b1 := Replace(a, '&', "&amp;"), Replace(b, '&', "&amp;");
    ReplaceConcat(a1, b1, '<', "&lt;");
    ReplaceConcat(Replace(a1, '<', "&lt;"), Replace(b1, '<', "&lt;"), '>', "&gt;");
  }

  lemma EscapeConcat(a: string, b: string, inAttribute: bool)
    ensures Escape(a + b, inAttribute) == Escape(a, inAttribute) + Escape(b, inAttribute)
  {
    hide Replace, EscapeText;
    EscapeTextConcat(a, b);
    var a1, b1 := EscapeText(a), EscapeText(b);
    ReplaceConcat(a1, b1, '"', "&quot;");
    ReplaceConcat(Replace(a1, '"', "&quot;"), Replace(b1, '"', "&quot;"), '\'', "&apos;");
  }

  /** One escaped character is read back, whatever follows it. */
  lemma UnescapeOne(c: char, rest: string, inAttribute: bool)
    ensures Unescape(EscapeChar(c, inAttribute) + rest, inAttribute) == Prepend(c, Unescape(rest, inAttribute))
  {
    var head := EscapeChar(c, inAttribute);
    var s := head + rest;
    assert s[..|head|] == head && s[|head|..] == rest;
    if |head| > 1 {
      EntityOf(c, rest, inAttribute);
    }
  }

  lemma EntityOf(c: char, rest: string, inAttribute: bool)
    requires |EscapeChar(c, inAttribute)| > 1
    ensures EntityAt(EscapeChar(c, inAttribute) + rest) == Some((EscapeChar(c, inAttribute), c))
  {
    var head := EscapeChar(c, inAttribute);
    var s := head + rest;
    assert s[..|head|] == head;
    assert s[1] == head[1] && s[2] == head[2];
  }

  /** Unescaping undoes both escapes: nothing is lost and nothing bare is left behind. */
  lemma {:induction false} EscapeRoundTrip(text: string, inAttribute: bool)
    ensures Unescape(Escape(text, inAttribute), inAttribute) == Some(text)
  {
    hide EscapeText, EscapeAttr, Unescape;
    if text == [] {
      assert Escape(text, inAttribute) == [] by {
        EmptyEscape(inAttribute);
      }
      assert Unescape([], inAttribute) == Some([]) by {
        UnescapeEmpty(inAttribute);
      }
    } else {
      assert text == text[..1] + text[1..] && text[..1] == [text[0]];
      EscapeConcat(text[..1], text[1..], inAttribute);
      EscapeOne(text[0]);
      EscapeRoundTrip(text[1..], inAttribute);
      UnescapeOne(text[0], Escape(text[1..], inAttribute), inAttribute);
    }
  }

  lemma EmptyEscape(inAttribute: bool)
    ensures Escape([], inAttribute) == []
  {
  }

  lemma UnescapeEmpty(inAttribute: bool)
    ensures Unescape([], inAttribute) == Some([])
  {
  }
}
