/** What the filter does to a document, told by the document's parts: text, tags whose quoted
    values may hold anything, markup declarations and comments. */
module HtmlDocuments {
  import opened TagSyntax
  import opened TagRenderings
  import opened HtmlLexer
  import HtmlFilter

  /** Behind its first byte a tag is made of loose text and of values in quotes. */
  datatype Segment = Loose(text: string) | Quoted(quote: char, value: string)

  datatype Node =
    | Words(text: string)
    | Tag(first: char, segments: seq<Segment>)
    | Declaration(text: string)
    | Remark(text: string)

  function SegmentText(g: Segment): string {
    match g
    case Loose(text) => text
    case Quoted(quote, value) => [quote] + value + [quote]
  }

  function SegmentsText(gs: seq<Segment>): string {
    if gs == [] then "" else SegmentsText(gs[..|gs| - 1]) + SegmentText(gs[|gs| - 1])
  }

  function NodeText(n: Node): string {
    match n
    case Words(text) => text
    case Tag(first, segments) => "<" + ([first] + SegmentsText(segments)) + ">"
    case Declaration(text) => "<!" + text + ">"
    case Remark(text) => "<!--" + text + "-->"
  }

  function Document(nodes: seq<Node>): string {
    if nodes == [] then "" else Document(nodes[..|nodes| - 1]) + NodeText(nodes[|nodes| - 1])
  }

  function LastOf(before: char, text: string): char {
    if text == "" then before else text[|text| - 1]
  }

  /** No angle brackets, and no quote directly behind '=' */
  predicate GoodLoose(before: char, text: string) {
    forall k :: 0 <= k < |text| ==>
      && text[k] != '<' && text[k] != '>'
      && (text[k] == '"' || text[k] == '\'' ==> LastOf(before, text[..k]) != '=')
  }

  /** A value in quotes stands directly behind '=' and does not hold its quote. */
  predicate GoodSegment(before: char, g: Segment) {
    match g
    case Loose(text) => GoodLoose(before, text)
    case Quoted(quote, value) => before == '=' && (quote == '"' || quote == '\'') && quote !in value
  }

  ghost predicate GoodTag(first: char, gs: seq<Segment>) {
    && first !in "!<>\"'"
    && forall k :: 0 <= k < |gs| ==> GoodSegment(LastOf(first, SegmentsText(gs[..k])), gs[k])
  }

  /** '>' ends a comment if two dashes come before it, not counting those that begin it. */
  predicate GoodRemark(text: string) {
    forall k :: 2 <= k < |text| && text[k] == '>' ==> !(text[k - 1] == '-' && text[k - 2] == '-')
  }

  ghost predicate GoodNode(n: Node) {
    match n
    case Words(text) => '<' !in text
    case Tag(first, segments) => GoodTag(first, segments)
    case Declaration(text) => '>' !in text && !(|text| >= 2 && text[0] == '-' && text[1] == '-')
    case Remark(text) => GoodRemark(text)
  }

  /** What has been put out, the eat mode, and posout */
  datatype Outcome = Outcome(out: string, eating: bool, posout: int)

  function Passed(text: string, o: Outcome): Outcome {
    if o.eating then o else Outcome(o.out + text, false, o.posout + |text|)
  }

  /** Text, declarations and comments pass unless the filter is eating. A tag's attributes go
      to the module, if there are any; then the tag passes unless the module has handled it
      or lets the filter eat. */
  function NodeOutcome(n: Node, o: Outcome, cb: Callback): Outcome {
    if n.Tag? then
      var attrs := Parse(NodeText(n));
      if attrs == [] then Passed(NodeText(n), o)
      else
        var r := cb(attrs, o.eating);
        var o' := Outcome(o.out + r.output, r.eating, o.posout + r.advance);
        if r.handled then o' else Passed(NodeText(n), o')
    else Passed(NodeText(n), o)
  }

  function DocumentOutcome(nodes: seq<Node>, o: Outcome, cb: Callback): Outcome {
    if nodes == [] then o
    else NodeOutcome(nodes[|nodes| - 1], DocumentOutcome(nodes[..|nodes| - 1], o, cb), cb)
  }

  // ----- Inside a tag -----

  /** In a tag, behind the byte `before` */
  function Inside(s: Lexer, before: char, text: string): Lexer {
    s.(tag := s.tag + text, inBSQuot := 0, inTag := if LastOf(before, text) == '=' then T_EQU else T_TAG)
  }

  predicate IsInside(s: Lexer, before: char) {
    s.inBSQuot == 0 && s.inTag == if before == '=' then T_EQU else T_TAG
  }

  lemma LooseStep(s: Lexer, before: char, c: char, cb: Callback)
    requires IsInside(s, before) && c != '<' && c != '>' && (c == '"' || c == '\'' ==> before != '=')
    ensures LexByte(s, c, cb) == Effect(Inside(s, before, [c]), "")
  {
    hide CallBack;
  }

  lemma LoosePrefix(before: char, text: string)
    requires GoodLoose(before, text) && text != ""
    ensures GoodLoose(before, text[..|text| - 1])
  {
    var init := text[..|text| - 1];
    assert forall k :: 0 <= k < |init| ==> init[k] == text[k] && init[..k] == text[..k];
  }

  lemma {:induction false} LooseRun(s: Lexer, before: char, text: string, cb: Callback)
    requires IsInside(s, before) && GoodLoose(before, text)
    ensures Run(s, text, cb) == Effect(Inside(s, before, text), "")
  {
    hide LexByte;
    if text == "" {
      assert s.tag + "" == s.tag;
    } else {
      var init, c := text[..|text| - 1], text[|text| - 1];
      LoosePrefix(before, text);
      LooseRun(s, before, init, cb);
      LooseStep(Inside(s, before, init), LastOf(before, init), c, cb);
      assert s.tag + text == (s.tag + init) + [c];
    }
  }

  lemma QuotedRun(s: Lexer, g: Segment, cb: Callback)
    requires IsInside(s, '=') && g.Quoted? && GoodSegment('=', g)
    ensures Run(s, SegmentText(g), cb) == Effect(Inside(s, '=', SegmentText(g)), "")
  {
    hide LexByte, QuotePos;
    var q, value := g.quote, g.value;
    OpeningQuote(s, q, cb);
    var within := s.(tag := s.tag + [q], inTag := if q == '"' then T_DQUOT else T_SQUOT);
    RunOne(s, q, cb);
    QuoteLasts(within, value, cb);
    QuoteEnds(within, value, q, cb);
    RunAppend(s, [q], value + [q], cb);
    assert SegmentText(g) == [q] + (value + [q]);
    assert s.tag + SegmentText(g) == s.tag + [q] + value + [q];
  }

  lemma QuoteEnds(s: Lexer, value: string, q: char, cb: Callback)
    requires s.inBSQuot == 0 && (q == '"' || q == '\'') && s.inTag == (if q == '"' then T_DQUOT else T_SQUOT) && q !in value
    ensures Run(s, value + [q], cb) == Effect(s.(tag := s.tag + value + [q], inTag := T_TAG), "")
  {
    hide LexByte;
    QuoteLasts(s, value, cb);
    RunStep(s, value, q, cb);
    QuoteStep(s.(tag := s.tag + value), q, cb);
  }

  lemma OpeningQuote(s: Lexer, q: char, cb: Callback)
    requires IsInside(s, '=') && (q == '"' || q == '\'')
    ensures LexByte(s, q, cb) == Effect(s.(tag := s.tag + [q], inTag := if q == '"' then T_DQUOT else T_SQUOT), "")
  {
    hide InTag;
  }

  lemma RunOne(s: Lexer, c: char, cb: Callback)
    ensures Run(s, [c], cb) == LexByte(s, c, cb)
  {
    hide LexByte;
    RunStep(s, "", c, cb);
    assert "" + [c] == [c];
  }

  lemma {:induction false} SegmentsRun(s: Lexer, first: char, gs: seq<Segment>, cb: Callback)
    requires IsInside(s, first) && GoodTag(first, gs)
    ensures Run(s, SegmentsText(gs), cb) == Effect(Inside(s, first, SegmentsText(gs)), "")
  {
    hide Run, GoodSegment;
    if gs == [] {
      LooseRun(s, first, "", cb);
    } else {
      var init, g := gs[..|gs| - 1], gs[|gs| - 1];
      var text := SegmentsText(init);
      assert GoodTag(first, init) by {
        assert forall k :: 0 <= k < |init| ==> gs[..k] == init[..k];
      }
      SegmentsRun(s, first, init, cb);
      SegmentRun(Inside(s, first, text), LastOf(first, text), g, cb);
      RunAppend(s, text, SegmentText(g), cb);
      InsideAppend(s, first, text, SegmentText(g));
    }
  }

  lemma SegmentRun(s: Lexer, before: char, g: Segment, cb: Callback)
    requires IsInside(s, before) && GoodSegment(before, g)
    ensures Run(s, SegmentText(g), cb) == Effect(Inside(s, before, SegmentText(g)), "")
  {
    hide Run;
    if g.Loose? {
      LooseRun(s, before, g.text, cb);
    } else {
      QuotedRun(s, g, cb);
    }
  }

  lemma InsideAppend(s: Lexer, before: char, a: string, b: string)
    ensures Inside(Inside(s, before, a), LastOf(before, a), b) == Inside(s, before, a + b)
  {
    assert s.tag + a + b == s.tag + (a + b);
    if b == "" {
      assert a + b == a;
    }
  }

  // ----- The four kinds of parts -----

  /** Between the parts of a document, with this outcome so far */
  ghost predicate Outside(s: Lexer) {
    s.inTag.T_TEXT? && s.tag == ""
  }

  ghost predicate Reaches(s: Lexer, text: string, n: Node, cb: Callback) {
    var e, o := Run(s, text, cb), NodeOutcome(n, Outcome("", s.eating, s.posout), cb);
    Outside(e.s) && Outcome(e.out, e.s.eating, e.s.posout) == o
  }

  lemma {:induction false} WordsRun(s: Lexer, text: string, cb: Callback)
    requires Outside(s) && '<' !in text
    ensures Run(s, text, cb) == Effect(if s.eating then s else s.(posout := s.posout + |text|), if s.eating then "" else text)
  {
    hide LexByte;
    if text != "" {
      var init, c := text[..|text| - 1], text[|text| - 1];
      WordsRun(s, init, cb);
      assert text == init + [c];
      WordsStep(Run(s, init, cb).s, c, cb);
    }
  }

  lemma WordsStep(s: Lexer, c: char, cb: Callback)
    requires Outside(s) && c != '<'
    ensures LexByte(s, c, cb) == Effect(if s.eating then s else s.(posout := s.posout + 1), if s.eating then "" else [c])
  {
  }

  lemma TagRun(s: Lexer, n: Node, cb: Callback)
    requires Outside(s) && n.Tag? && GoodNode(n)
    ensures Reaches(s, NodeText(n), n, cb)
  {
    hide LexByte, Parse, Run, GoodTag, Inside;
    var body := [n.first] + SegmentsText(n.segments);
    var start := s.(inTag := T_STAG, inBSQuot := 0, tag := "<");
    FirstInside(start, n.first, n.segments);
    TagBegins(s, n.first, cb);
    var begun := Inside(start, n.first, [n.first]);
    SegmentsRun(begun, n.first, n.segments, cb);
    RunAppend(s, "<" + [n.first], SegmentsText(n.segments), cb);
    assert "<" + body == ("<" + [n.first]) + SegmentsText(n.segments);
    var inside := Inside(begun, n.first, SegmentsText(n.segments));
    RunStep(s, "<" + body, '>', cb);
    InsideNode(s, n);
    TagEnds(n, inside, cb);
  }

  lemma TagBegins(s: Lexer, first: char, cb: Callback)
    requires Outside(s) && first !in "!<>\"'"
    ensures Run(s, "<" + [first], cb) == Effect(Inside(s.(inTag := T_STAG, inBSQuot := 0, tag := "<"), first, [first]), "")
  {
    hide CallBack, Run;
    RunOne(s, '<', cb);
    RunStep(s, "<", first, cb);
  }

  lemma FirstInside(s: Lexer, first: char, gs: seq<Segment>)
    requires GoodTag(first, gs)
    ensures first !in "!<>\"'" && IsInside(Inside(s, first, [first]), first)
  {
  }

  lemma ClosingByte(s: Lexer, cb: Callback)
    requires s.inTag.T_TAG? || s.inTag.T_EQU?
    ensures var e := EndTag(s.(inTag := T_TAG), cb);
      LexByte(s, '>', cb) == Effect(e.s.(inTag := T_TEXT), e.out)
  {
    hide EndTag;
  }

  /** What is inside is the node's text but for the closing bracket. */
  lemma InsideNode(s: Lexer, n: Node)
    requires n.Tag?
    ensures var start := s.(inTag := T_STAG, inBSQuot := 0, tag := "<");
      var inside := Inside(Inside(start, n.first, [n.first]), n.first, SegmentsText(n.segments));
      && (inside.inTag.T_TAG? || inside.inTag.T_EQU?) && inside.tag + ">" == NodeText(n)
      && inside.eating == s.eating && inside.posout == s.posout
  {
    var text := SegmentsText(n.segments);
    assert "<" + ([n.first] + text) == ("<" + [n.first]) + text;
  }

  lemma TagEnds(n: Node, inside: Lexer, cb: Callback)
    requires n.Tag? && (inside.inTag.T_TAG? || inside.inTag.T_EQU?) && inside.tag + ">" == NodeText(n)
    ensures var e, o := LexByte(inside, '>', cb), NodeOutcome(n, Outcome("", inside.eating, inside.posout), cb);
      Outside(e.s) && Outcome(e.out, e.s.eating, e.s.posout) == o
  {
    hide Parse, LexByte, NodeText;
    ClosingByte(inside, cb);
    var r := CallBack(cb, inside.tag + ">", inside.eating);
    assert "" + r.output == r.output;
  }

  /** How many dashes a text ends with */
  function Dashes(text: string): nat {
    if text == "" || text[|text| - 1] != '-' then 0 else Dashes(text[..|text| - 1]) + 1
  }

  lemma TwoDashes(text: string)
    ensures Dashes(text) >= 2 <==> |text| >= 2 && text[|text| - 1] == '-' && text[|text| - 2] == '-'
  {
    if |text| >= 2 && text[|text| - 1] == '-' {
      assert text[..|text| - 1][|text| - 2] == text[|text| - 2];
    }
  }

  lemma OneMoreDash(text: string, c: char)
    ensures Dashes("") == 0 && Dashes(text + [c]) == if c == '-' then Dashes(text) + 1 else 0
  {
    assert (text + [c])[..|text|] == text;
  }

  lemma CommentStep(s: Lexer, c: char, cb: Callback)
    requires s.inTag.T_COMM?
    ensures LexByte(s, c, cb) ==
      Effect(s.(inTag := if c == '>' && s.inBSQuot >= 2 then T_TEXT else T_COMM,
                inBSQuot := if c == '-' then s.inBSQuot + 1 else 0,
                posout := if s.eating then s.posout else s.posout + 1),
             if s.eating then "" else [c])
  {
  }

  lemma RemarkPrefix(text: string)
    requires GoodRemark(text) && text != ""
    ensures var init := text[..|text| - 1];
      GoodRemark(init) && (text[|text| - 1] == '>' ==> Dashes(init) < 2)
  {
    hide Dashes;
    var init := text[..|text| - 1];
    assert forall k :: 0 <= k < |init| ==> init[k] == text[k];
    TwoDashes(init);
  }

  lemma {:induction false} CommentRun(s: Lexer, text: string, cb: Callback)
    requires s.inTag.T_COMM? && s.inBSQuot == 0 && GoodRemark(text)
    ensures Run(s, text, cb) ==
      Effect(s.(inBSQuot := Dashes(text), posout := s.posout + if s.eating then 0 else |text|), if s.eating then "" else text)
  {
    hide LexByte, Dashes, GoodRemark;
    if text != "" {
      var init, c := text[..|text| - 1], text[|text| - 1];
      RemarkPrefix(text);
      CommentRun(s, init, cb);
      OneMoreDash(init, c);
      assert text == init + [c];
      CommentStep(Run(s, init, cb).s, c, cb);
    } else {
      OneMoreDash("", '>');
    }
  }

  /** A comment lasts to the first '>' behind two dashes of its own. */
  lemma CommentLasts(s: Lexer, text: string, cb: Callback)
    requires s.inTag.T_COMM? && s.inBSQuot == 0 && GoodRemark(text)
    ensures Run(s, text, cb).s.inTag == T_COMM
    ensures Run(s, text + ">", cb).s.inTag ==
      if |text| >= 2 && text[|text| - 1] == '-' && text[|text| - 2] == '-' then T_TEXT else T_COMM
  {
    hide Run, LexByte, Dashes;
    CommentRun(s, text, cb);
    TwoDashes(text);
    RunStep(s, text, '>', cb);
    CommentStep(Run(s, text, cb).s, '>', cb);
  }

  lemma RemarkRun(s: Lexer, text: string, cb: Callback)
    requires Outside(s) && GoodRemark(text)
    ensures Reaches(s, "<!--" + text + "-->", Remark(text), cb)
  {
    hide Run;
    MarkupBegins(s, cb);
    var start := Run(s, "<!", cb).s;
    RunOne(start, '-', cb);
    RunStep(start, "-", '-', cb);
    RunAppend(s, "<!", "--", cb);
    assert "<!" + "--" == "<!--" && "-" + "-" == "--";
    var within := Run(s, "<!--", cb).s;
    CommentRun(within, text, cb);
    RunAppend(s, "<!--", text, cb);
    ClosingDashes(s, text, cb);
  }

  lemma ClosingDashes(s: Lexer, text: string, cb: Callback)
    requires var e := Run(s, "<!--" + text, cb);
      e.s == s.(inTag := T_COMM, inBSQuot := Dashes(text), posout := s.posout + if s.eating then 0 else |text| + 4)
      && e.out == (if s.eating then "" else "<!--" + text)
    requires Outside(s)
    ensures Reaches(s, "<!--" + text + "-->", Remark(text), cb)
  {
    hide Run, Dashes;
    var all := "<!--" + text;
    RunStep(s, all, '-', cb);
    RunStep(s, all + "-", '-', cb);
    RunStep(s, all + "-" + "-", '>', cb);
    assert all + "-" + "-" + ">" == all + "-->";
  }

  lemma MarkupBegins(s: Lexer, cb: Callback)
    requires Outside(s)
    ensures Run(s, "<!", cb) ==
      Effect(s.(inTag := T_META, inBSQuot := 0, posout := s.posout + if s.eating then 0 else 2), if s.eating then "" else "<!")
  {
    hide Run;
    RunOne(s, '<', cb);
    RunStep(s, "<", '!', cb);
    assert "<" + "!" == "<!";
  }

  lemma {:induction false} DeclarationLasts(s: Lexer, text: string, cb: Callback)
    requires s.inTag.T_META? && s.inBSQuot == 0 && '>' !in text && !(|text| >= 2 && text[0] == '-' && text[1] == '-')
    ensures Run(s, text, cb) ==
      Effect(s.(inBSQuot := if text == "" then 0 else if text == "-" then 1 else -1,
                posout := s.posout + if s.eating then 0 else |text|),
             if s.eating then "" else text)
  {
    hide LexByte;
    if text != "" {
      var init, c := text[..|text| - 1], text[|text| - 1];
      assert text == init + [c] && (init != "" ==> init[0] == text[0]);
      assert |init| == 1 ==> init == [text[0]];
      DeclarationLasts(s, init, cb);
      DeclarationStep(Run(s, init, cb).s, c, cb);
    }
  }

  lemma DeclarationStep(s: Lexer, c: char, cb: Callback)
    requires s.inTag.T_META? && c != '>' && (s.inBSQuot == 0 || s.inBSQuot == -1 || (s.inBSQuot == 1 && c != '-'))
    ensures LexByte(s, c, cb) ==
      Effect(s.(inBSQuot := if s.inBSQuot == 0 && c == '-' then 1 else -1,
                posout := if s.eating then s.posout else s.posout + 1),
             if s.eating then "" else [c])
  {
  }

  lemma DeclarationRun(s: Lexer, text: string, cb: Callback)
    requires Outside(s) && GoodNode(Declaration(text))
    ensures Reaches(s, "<!" + text + ">", Declaration(text), cb)
  {
    hide Run;
    MarkupBegins(s, cb);
    DeclarationLasts(Run(s, "<!", cb).s, text, cb);
    RunAppend(s, "<!", text, cb);
    RunStep(s, "<!" + text, '>', cb);
  }

  lemma NodeRun(s: Lexer, n: Node, cb: Callback)
    requires Outside(s) && GoodNode(n)
    ensures Reaches(s, NodeText(n), n, cb)
  {
    hide Run, Parse;
    match n
    case Words(text) => WordsRun(s, text, cb);
    case Tag(_, _) => TagRun(s, n, cb);
    case Declaration(text) => DeclarationRun(s, text, cb);
    case Remark(text) => RemarkRun(s, text, cb);
  }

  /** Output, eat mode and posout after a document are those that its parts add up to. */
  lemma {:induction false} DocumentRun(s: Lexer, nodes: seq<Node>, cb: Callback)
    requires Outside(s) && forall k :: 0 <= k < |nodes| ==> GoodNode(nodes[k])
    ensures var e := Run(s, Document(nodes), cb);
      Outside(e.s) && Outcome(e.out, e.s.eating, e.s.posout) == DocumentOutcome(nodes, Outcome("", s.eating, s.posout), cb)
  {
    hide LexByte, NodeOutcome, NodeText, GoodNode;
    if nodes != [] {
      var init, n := nodes[..|nodes| - 1], nodes[|nodes| - 1];
      DocumentRun(s, init, cb);
      var before := Run(s, Document(init), cb);
      NodeRun(before.s, n, cb);
      RunAppend(s, Document(init), NodeText(n), cb);
      OutcomeAppend(n, before.out, before.s.eating, before.s.posout, cb);
    }
  }

  lemma PassedAppend(text: string, a: string, b: string, eating: bool, posout: int)
    ensures var o := Passed(text, Outcome(b, eating, posout));
      Passed(text, Outcome(a + b, eating, posout)) == Outcome(a + o.out, o.eating, o.posout)
  {
    assert a + (b + text) == (a + b) + text;
  }

  lemma OutcomeAppend(n: Node, out: string, eating: bool, posout: int, cb: Callback)
    ensures var o := NodeOutcome(n, Outcome("", eating, posout), cb);
      NodeOutcome(n, Outcome(out, eating, posout), cb) == Outcome(out + o.out, o.eating, o.posout)
  {
    hide Parse, Passed;
    var text := NodeText(n);
    PassedAppend(text, out, "", eating, posout);
    assert out + "" == out;
    if n.Tag? {
      var r := cb(Parse(text), eating);
      PassedAppend(text, out, r.output, r.eating, posout + r.advance);
      assert "" + r.output == r.output;
    }
  }

  /** A tag written from parts is handed over with the attributes that are meant. */
  lemma HandedOver(n: Node, ps: seq<Part>, pad: string, o: Outcome, cb: Callback)
    requires n.Tag? && NodeText(n) == RenderTag(ps, pad) && ps != [] && GoodParts(ps) && White(pad)
    ensures var r := cb(Meanings(ps), o.eating);
      var o' := Outcome(o.out + r.output, r.eating, o.posout + r.advance);
      NodeOutcome(n, o, cb) == if r.handled || r.eating then o'
                               else o'.(out := o'.out + NodeText(n), posout := o'.posout + |NodeText(n)|)
  {
    hide Parse, RenderTag, NodeText, GoodParts;
    ParseRendered(ps, pad);
    assert Meanings(ps) != [];
  }

  /** However a document is cut into chunks, the filter object puts out what its parts add up to. */
  method FilterDocument(f: HtmlFilter.Filter, nodes: seq<Node>, chunks: seq<string>, target: string)
    returns (ret: int, target': string)
    requires f.Valid() && f.contlen < 0 && f.inTag.T_TEXT? && Concat(chunks) == Document(nodes)
    requires forall k :: 0 <= k < |nodes| ==> GoodNode(nodes[k])
    modifies f
    ensures f.Valid() && ret == if NUL in Document(nodes) then -1 else 0
    ensures ret == 0 ==>
      && f.inTag.T_TEXT?
      && Outcome(target', f.eating, f.posout) ==
         DocumentOutcome(nodes, Outcome(target, old(f.eating), old(f.posout)), f.processTag)
  {
    hide Run, DocumentOutcome, GoodNode, Document;
    DocumentRun(f.State(), nodes, f.processTag);
    DocumentAppend(nodes, target, f.eating, f.posout, f.processTag);
    ret, target' := HtmlFilter.FilterChunks(f, chunks, target);
  }

  lemma {:induction false} DocumentAppend(nodes: seq<Node>, out: string, eating: bool, posout: int, cb: Callback)
    ensures var o := DocumentOutcome(nodes, Outcome("", eating, posout), cb);
      DocumentOutcome(nodes, Outcome(out, eating, posout), cb) == Outcome(out + o.out, o.eating, o.posout)
  {
    hide NodeOutcome;
    if nodes == [] {
      assert out + "" == out;
    } else {
      var init, n := nodes[..|nodes| - 1], nodes[|nodes| - 1];
      DocumentAppend(init, out, eating, posout, cb);
      var o := DocumentOutcome(init, Outcome("", eating, posout), cb);
      OutcomeAppend(n, out + o.out, o.eating, o.posout, cb);
      OutcomeAppend(n, o.out, o.eating, o.posout, cb);
      var o' := NodeOutcome(n, Outcome("", o.eating, o.posout), cb);
      assert (out + o.out) + o'.out == out + (o.out + o'.out);
    }
  }
}
