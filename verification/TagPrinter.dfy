/** insertTag and processTag0 undo each other: what is printed for a list of attributes is
    parsed back into that list. */
module TagPrinter {
  import opened TagSyntax
  import opened TagRenderings
  import opened Wrappers

  /** "=value", or nothing */
  function PrintValue(value: Option<string>): string {
    match value
    case None => ""
    case Some(v) => "=" + v
  }

  function Piece(a: Attribute): string {
    " " + a.name + PrintValue(a.value)
  }

  /** The text of the first k attributes; the tag's own name is printed without a value. */
  function Text(attrs: seq<Attribute>, k: nat): string
    requires 1 <= k <= |attrs|
  {
    if k == 1 then "<" + attrs[0].name
    else Text(attrs, k - 1) + " " + attrs[k - 1].name + PrintValue(attrs[k - 1].value)
  }

  function Print(attrs: seq<Attribute>): string
    requires attrs != []
  {
    Text(attrs, |attrs|) + ">"
  }

  ghost predicate Printable(attrs: seq<Attribute>) {
    && attrs != [] && attrs[0].value.None?
    && forall k :: 0 <= k < |attrs| ==>
         GoodName(attrs[k].name) && (attrs[k].value.Some? ==> GoodValue(attrs[k].value.value))
  }

  /** Printing puts one space between attributes, and values bare behind '='. */
  function AsPart(a: Attribute, sep: string): Part {
    match a.value
    case None => Name(sep, a.name)
    case Some(v) => Pair(sep, a.name, "", "", v, Bare)
  }

  function AsParts(attrs: seq<Attribute>, k: nat): (ps: seq<Part>)
    requires k <= |attrs|
    ensures |ps| == k
  {
    if k == 0 then [] else AsParts(attrs, k - 1) + [AsPart(attrs[k - 1], if k == 1 then "" else " ")]
  }

  lemma {:induction false} RenderAppend(ps: seq<Part>, p: Part)
    ensures RenderParts(ps + [p]) == RenderParts(ps) + (p.sep + Body(p))
    ensures Meanings(ps + [p]) == Meanings(ps) + [Meaning(p)]
  {
    hide Body, Meaning;
    if ps == [] {
      assert p.sep + (Body(p) + "") == p.sep + Body(p);
    } else {
      var rest := ps[1..];
      assert (ps + [p])[1..] == rest + [p];
      RenderAppend(rest, p);
      var sep, body, text := ps[0].sep, Body(ps[0]), RenderParts(rest);
      assert sep + (body + (text + (p.sep + Body(p)))) == sep + (body + text) + (p.sep + Body(p));
    }
  }

  lemma AsPartText(a: Attribute, sep: string)
    ensures sep + Body(AsPart(a, sep)) == sep + a.name + PrintValue(a.value)
    ensures AsPart(a, sep).sep == sep && Meaning(AsPart(a, sep)) == a
  {
    match a.value
    case None =>
    case Some(v) =>
      assert "" + ("=" + ("" + v)) == "=" + v;
      assert sep + (a.name + ("=" + v)) == sep + a.name + ("=" + v);
  }

  lemma {:induction false} PrintsAsParts(attrs: seq<Attribute>, k: nat)
    requires attrs != [] && attrs[0].value.None? && 1 <= k <= |attrs|
    ensures Text(attrs, k) == "<" + RenderParts(AsParts(attrs, k)) && Meanings(AsParts(attrs, k)) == attrs[..k]
  {
    hide Body, AsPart, PrintValue, Meaning;
    var a := attrs[k - 1];
    var sep := if k == 1 then "" else " ";
    RenderAppend(AsParts(attrs, k - 1), AsPart(a, sep));
    AsPartText(a, sep);
    assert attrs[..k] == attrs[..k - 1] + [a];
    if k > 1 {
      PrintsAsParts(attrs, k - 1);
      var before, value := RenderParts(AsParts(attrs, k - 1)), PrintValue(a.value);
      assert "<" + (before + (" " + a.name + value)) == ("<" + before) + " " + a.name + value;
    } else {
      assert AsParts(attrs, 0) == [] && AsParts(attrs, 1) == [AsPart(a, "")];
      FirstPart(a);
    }
  }

  lemma FirstPart(a: Attribute)
    requires a.value.None?
    ensures RenderParts([AsPart(a, "")]) == a.name
  {
    OnePart(Name("", a.name));
    assert "" + (a.name + "") == a.name;
  }

  lemma {:induction false} PartsGood(attrs: seq<Attribute>, k: nat)
    requires Printable(attrs) && k <= |attrs|
    ensures GoodParts(AsParts(attrs, k))
  {
    hide GoodName, GoodValue;
    if k > 0 {
      PartsGood(attrs, k - 1);
    }
  }

  /** Parsing a printed tag gives the attributes that were printed. */
  lemma ParsePrint(attrs: seq<Attribute>)
    requires Printable(attrs)
    ensures Parse(Print(attrs)) == attrs
  {
    hide Parse, AsParts, Text;
    PrintsAsParts(attrs, |attrs|);
    PartsGood(attrs, |attrs|);
    ParseRendered(AsParts(attrs, |attrs|), "");
    assert RenderParts(AsParts(attrs, |attrs|)) + "" == RenderParts(AsParts(attrs, |attrs|));
    assert attrs[..|attrs|] == attrs;
  }
}
