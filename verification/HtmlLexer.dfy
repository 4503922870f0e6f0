/** The byte-level state machine of htmlCfFilter as a pure function, and what it promises:
    how the input is cut into chunks does not matter, and text passes through unchanged
    exactly as long as no '<' is read at the start of a tag or inside one. */
module HtmlLexer {
  import opened TagSyntax

  /** tpos; Code gives the enumerators' values. */
  datatype TPos = T_TEXT | T_STAG | T_TAG | T_EQU | T_META | T_COMM | T_DQUOT | T_SQUOT

  function Code(p: TPos): char {
    match p
    case T_TEXT => '\0'
    case T_STAG => '\U{1}'
    case T_TAG => '\U{2}'
    case T_EQU => '\U{3}'
    case T_META => '\U{4}'
    case T_COMM => '\U{5}'
    case T_DQUOT => '"'
    case T_SQUOT => '\''
  }

  /** What a module's processTag did: whether it handled the tag, the eat mode it left, the
      bytes it put into the target, and by how much it advanced posout. */
  datatype Reply = Reply(handled: bool, eating: bool, output: string, advance: int)

  /** processTag, depending only on the attributes and the eat mode. */
  type Callback = (seq<Attribute>, bool) -> Reply

  datatype Lexer = Lexer(inTag: TPos, inBSQuot: int, tag: string, eating: bool, posout: int)

  /** One byte's new state and the bytes appended to the target. */
  datatype Effect = Effect(s: Lexer, out: string)

  /** processTag0: without attributes there is no callback. */
  function CallBack(cb: Callback, tag: string, eating: bool): Reply
    requires tag != []
  {
    if Parse(tag) == [] then Reply(false, eating, "", 0) else cb(Parse(tag), eating)
  }

  /** A tag is complete: hand it over, and print it if nobody handled it. */
  function EndTag(s: Lexer, cb: Callback): Effect {
    var tag := s.tag + ">";
    var r := CallBack(cb, tag, s.eating);
    var pass := !r.handled && !r.eating;
    Effect(s.(tag := "", eating := r.eating, posout := s.posout + r.advance + if pass then |tag| else 0),
           r.output + if pass then tag else "")
  }

  function StoreTag(s: Lexer, c: char): Effect {
    Effect(s.(tag := s.tag + [c], inBSQuot := 0), "")
  }

  function StoreText(s: Lexer, c: char): Effect {
    if s.eating then Effect(s, "") else Effect(s.(posout := s.posout + 1), [c])
  }

  /** cases T_DQUOT and T_SQUOT, which T_TAG falls into */
  function InQuotes(s: Lexer, c: char): Effect {
    if s.inBSQuot == 0 && c == '\\' then StoreTag(s.(inBSQuot := 1), c)
    else if s.inBSQuot == 0 && c == Code(s.inTag) then StoreTag(s.(inTag := T_TAG), c)
    else StoreTag(s, c)
  }

  /** case T_TAG */
  function InTag(s: Lexer, c: char, cb: Callback): Effect {
    if c == '>' then
      var e := EndTag(s, cb);
      Effect(e.s.(inTag := T_TEXT), e.out)
    else if c == '<' then
      var e := EndTag(s, cb);
      Effect(StoreTag(e.s.(inTag := T_STAG), c).s, e.out)
    else if c == '=' then InQuotes(s.(inTag := T_EQU), c)
    else InQuotes(s, c)
  }

  /** case T_EQU, which T_STAG falls into */
  function AfterEquals(s: Lexer, c: char, cb: Callback): Effect {
    if IsQuote(c) && s.inBSQuot == 0 then
      Effect(s.(tag := s.tag + [c], inTag := if c == '"' then T_DQUOT else T_SQUOT), "")
    else InTag(s.(inTag := T_TAG), c, cb)
  }

  /** The switch of htmlCfFilter for one byte. */
  function LexByte(s: Lexer, c: char, cb: Callback): Effect {
    match s.inTag
    case T_TEXT => if c == '<' then StoreTag(s.(inTag := T_STAG), c) else StoreText(s, c)
    case T_META =>
      var s1 :=
        if s.inBSQuot < 0 then s
        else if c != '-' then s.(inBSQuot := -1)
        else if s.inBSQuot + 1 >= 2 then s.(inTag := T_COMM, inBSQuot := 0)
        else s.(inBSQuot := s.inBSQuot + 1);
      StoreText(if c == '>' then s1.(inTag := T_TEXT) else s1, c)
    case T_COMM =>
      var s1 := if c == '>' && s.inBSQuot >= 2 then s.(inTag := T_TEXT) else s;
      StoreText(s1.(inBSQuot := if c == '-' then s.inBSQuot + 1 else 0), c)
    case T_STAG =>
      if c == '!' then
        Effect(s.(tag := "", inTag := T_META, inBSQuot := 0, posout := s.posout + if s.eating then 0 else 2),
               if s.eating then "" else "<!")
      else if c == '<' then Effect(s, "")
      else AfterEquals(if IsSpace(c) then s else s.(inTag := T_TAG), c, cb)
    case T_EQU => AfterEquals(s, c, cb)
    case T_TAG => InTag(s, c, cb)
    case _ => InQuotes(s, c)
  }

  function Run(s: Lexer, input: string, cb: Callback): Effect {
    if input == [] then Effect(s, "")
    else
      var before := Run(s, input[..|input| - 1], cb);
      var last := LexByte(before.s, input[|input| - 1], cb);
      Effect(last.s, before.out + last.out)
  }

  // ----- Chunks -----

  lemma RunStep(s: Lexer, input: string, c: char, cb: Callback)
    ensures var before := Run(s, input, cb);
            var last := LexByte(before.s, c, cb);
            Run(s, input + [c], cb) == Effect(last.s, before.out + last.out)
  {
    assert (input + [c])[..|input|] == input;
  }

  lemma {:induction false} RunAppend(s: Lexer, a: string, b: string, cb: Callback)
    ensures var first := Run(s, a, cb);
            var second := Run(first.s, b, cb);
            Run(s, a + b, cb) == Effect(second.s, first.out + second.out)
    decreases |b|
  {
    hide LexByte;
    if b == [] {
      assert a + b == a;
    } else {
      var c, init := b[|b| - 1], b[..|b| - 1];
      assert a + b == (a + init) + [c] && b == init + [c];
      RunAppend(s, a, init, cb);
      RunStep(s, a + init, c, cb);
      RunStep(Run(s, a, cb).s, init, c, cb);
    }
  }

  function Concat(chunks: seq<string>): string {
    if chunks == [] then "" else Concat(chunks[..|chunks| - 1]) + chunks[|chunks| - 1]
  }

  /** Filtering chunk after chunk. */
  function RunChunks(s: Lexer, chunks: seq<string>, cb: Callback): Effect {
    if chunks == [] then Effect(s, "")
    else
      var before := RunChunks(s, chunks[..|chunks| - 1], cb);
      var last := Run(before.s, chunks[|chunks| - 1], cb);
      Effect(last.s, before.out + last.out)
  }

  /** Output and final state depend only on the concatenated input. */
  lemma {:induction false} ChunksDoNotMatter(s: Lexer, chunks: seq<string>, cb: Callback)
    ensures RunChunks(s, chunks, cb) == Run(s, Concat(chunks), cb)
  {
    if chunks != [] {
      var init, last := chunks[..|chunks| - 1], chunks[|chunks| - 1];
      ChunksDoNotMatter(s, init, cb);
      RunAppend(s, Concat(init), last, cb);
    }
  }

  // ----- Quotes -----

  /** Inside a tag no backslash is ever remembered: storeTag forgets it at once. */
  ghost predicate NothingEscaped(s: Lexer) {
    s.inTag.T_TEXT? || s.inTag.T_META? || s.inTag.T_COMM? || s.inBSQuot == 0
  }

  lemma StaysUnescaped(s: Lexer, c: char, cb: Callback)
    requires NothingEscaped(s)
    ensures NothingEscaped(LexByte(s, c, cb).s)
  {
    hide CallBack;
  }

  lemma QuoteStep(s: Lexer, c: char, cb: Callback)
    requires NothingEscaped(s) && (s.inTag.T_DQUOT? || s.inTag.T_SQUOT?)
    ensures var e := LexByte(s, c, cb);
      e.out == "" && e.s == s.(tag := s.tag + [c], inTag := if c == Code(s.inTag) then T_TAG else s.inTag)
  {
    hide CallBack;
    assert Code(s.inTag) != '\\';
  }

  /** So a quoted value lasts to the first quote of its kind, even one behind a backslash. */
  lemma {:induction false} QuoteLasts(s: Lexer, text: string, cb: Callback)
    requires NothingEscaped(s) && (s.inTag.T_DQUOT? || s.inTag.T_SQUOT?) && Code(s.inTag) !in text
    ensures Run(s, text, cb).s == s.(tag := s.tag + text) && Run(s, text, cb).out == ""
    ensures Run(s, text + [Code(s.inTag)], cb).s == s.(tag := s.tag + text + [Code(s.inTag)], inTag := T_TAG)
  {
    hide LexByte, Code;
    if text != [] {
      var init, c := text[..|text| - 1], text[|text| - 1];
      QuoteLasts(s, init, cb);
      QuoteStep(s.(tag := s.tag + init), c, cb);
      assert text == init + [c] && s.tag + text == (s.tag + init) + [c];
    } else {
      assert s.tag + text == s.tag;
    }
    RunStep(s, text, Code(s.inTag), cb);
    QuoteStep(s.(tag := s.tag + text), Code(s.inTag), cb);
  }

  // ----- What passes through -----

  /** A callback that leaves every tag alone. */
  ghost predicate Silent(cb: Callback) {
    forall attrs, eating :: cb(attrs, eating) == Reply(false, eating, "", 0)
  }

  /** A '<' where the lexer does not expect one: "bad <<TAG> syntax", or a tag that is cut off. */
  predicate Repairs(s: Lexer, c: char) {
    c == '<' && (s.inTag.T_STAG? || s.inTag.T_TAG? || s.inTag.T_EQU?)
  }

  /** Not eating; a tag is pending only inside one. Every filter starts like this. */
  ghost predicate Settled(s: Lexer) {
    && !s.eating
    && (s.inTag.T_TEXT? || s.inTag.T_META? || s.inTag.T_COMM? ==> s.tag == "")
    && (s.inTag.T_STAG? ==> s.tag == "<")
  }

  /** The byte c went through, or is pending. */
  ghost predicate Keeps(s: Lexer, c: char, e: Effect) {
    Settled(e.s) && e.out + e.s.tag == s.tag + [c]
  }

  lemma EndTagKeeps(s: Lexer, cb: Callback)
    requires Silent(cb) && !s.eating
    ensures EndTag(s, cb) == Effect(s.(tag := "", posout := s.posout + |s.tag| + 1), s.tag + ">")
  {
    hide Parse;
  }

  lemma InQuotesKeeps(s: Lexer, c: char)
    requires !s.eating && (s.inTag.T_TAG? || s.inTag.T_EQU? || s.inTag.T_DQUOT? || s.inTag.T_SQUOT?)
    ensures Keeps(s, c, InQuotes(s, c))
  {
  }

  lemma InTagKeeps(s: Lexer, c: char, cb: Callback)
    requires Silent(cb) && !s.eating && s.inTag.T_TAG?
    ensures c != '<' ==> Keeps(s, c, InTag(s, c, cb))
    ensures c == '<' ==> Settled(InTag(s, c, cb).s) && |InTag(s, c, cb).out + InTag(s, c, cb).s.tag| == |s.tag| + 2
  {
    hide EndTag, InQuotes;
    if c == '>' || c == '<' {
      EndTagKeeps(s, cb);
    } else {
      InQuotesKeeps(if c == '=' then s.(inTag := T_EQU) else s, c);
    }
  }

  lemma AfterEqualsKeeps(s: Lexer, c: char, cb: Callback)
    requires Silent(cb) && !s.eating
    ensures c != '<' ==> Keeps(s, c, AfterEquals(s, c, cb))
    ensures c == '<' ==>
      Settled(AfterEquals(s, c, cb).s) && |AfterEquals(s, c, cb).out + AfterEquals(s, c, cb).s.tag| == |s.tag| + 2
  {
    hide InTag;
    InTagKeeps(s.(inTag := T_TAG), c, cb);
  }

  lemma StepConserves(s: Lexer, c: char, cb: Callback)
    requires Silent(cb) && Settled(s)
    ensures Settled(LexByte(s, c, cb).s)
    ensures !Repairs(s, c) ==> Keeps(s, c, LexByte(s, c, cb))
    ensures Repairs(s, c) ==> |LexByte(s, c, cb).out| + |LexByte(s, c, cb).s.tag| != |s.tag| + 1
  {
    hide InTag, InQuotes, AfterEquals;
    match s.inTag {
      case T_STAG => AfterEqualsKeeps(if IsSpace(c) then s else s.(inTag := T_TAG), c, cb);
      case T_EQU => AfterEqualsKeeps(s, c, cb);
      case T_TAG => InTagKeeps(s, c, cb);
      case T_DQUOT => InQuotesKeeps(s, c);
      case T_SQUOT => InQuotesKeeps(s, c);
      case _ =>
    }
  }

  /** The lexer's state after the first k bytes. */
  function After(s: Lexer, input: string, k: nat, cb: Callback): Effect
    requires k <= |input|
  {
    Run(s, input[..k], cb)
  }

  /** At every point so far, output and pending tag together are the bytes consumed. */
  ghost predicate Conserved(s: Lexer, input: string, cb: Callback) {
    forall k :: 0 <= k <= |input| ==>
      After(s, input, k, cb).out + After(s, input, k, cb).s.tag == s.tag + input[..k]
  }

  ghost predicate NothingRepaired(s: Lexer, input: string, cb: Callback) {
    forall k :: 0 <= k < |input| ==> !Repairs(After(s, input, k, cb).s, input[k])
  }

  lemma {:induction false} StaysSettled(s: Lexer, input: string, k: nat, cb: Callback)
    requires Silent(cb) && Settled(s) && k <= |input|
    ensures Settled(After(s, input, k, cb).s)
  {
    hide LexByte, Repairs, Settled;
    if k > 0 {
      StaysSettled(s, input, k - 1, cb);
      assert input[..k] == input[..k - 1] + [input[k - 1]];
      RunStep(s, input[..k - 1], input[k - 1], cb);
      StepConserves(After(s, input, k - 1, cb).s, input[k - 1], cb);
    }
  }

  lemma {:induction false} ConservedUpTo(s: Lexer, input: string, k: nat, cb: Callback)
    requires Silent(cb) && Settled(s) && k <= |input|
    requires forall j :: 0 <= j < k ==> !Repairs(After(s, input, j, cb).s, input[j])
    ensures After(s, input, k, cb).out + After(s, input, k, cb).s.tag == s.tag + input[..k]
  {
    hide LexByte, Repairs, Settled;
    if k > 0 {
      var before, c := After(s, input, k - 1, cb), input[k - 1];
      ConservedUpTo(s, input, k - 1, cb);
      StaysSettled(s, input, k - 1, cb);
      StepConserves(before.s, c, cb);
      assert input[..k] == input[..k - 1] + [c];
      RunStep(s, input[..k - 1], c, cb);
      var last := LexByte(before.s, c, cb);
      Carried(before.out, before.s.tag, last.out, last.s.tag, s.tag, input[..k - 1], c);
    }
  }

  lemma Carried(out: string, tag: string, out': string, tag': string, first: string, read: string, c: char)
    requires out + tag == first + read && out' + tag' == tag + [c]
    ensures (out + out') + tag' == first + (read + [c])
  {
    assert (out + out') + tag' == out + (out' + tag');
    assert out + (tag + [c]) == (out + tag) + [c];
    assert (first + read) + [c] == first + (read + [c]);
  }

  /** With a callback that leaves tags alone, every byte passes through unchanged if and
      only if no '<' is read in T_STAG, T_TAG or T_EQU. */
  lemma ConservedIffNothingRepaired(s: Lexer, input: string, cb: Callback)
    requires Silent(cb) && Settled(s)
    ensures Conserved(s, input, cb) <==> NothingRepaired(s, input, cb)
  {
    if NothingRepaired(s, input, cb) {
      forall k | 0 <= k <= |input|
        ensures After(s, input, k, cb).out + After(s, input, k, cb).s.tag == s.tag + input[..k]
      {
        ConservedUpTo(s, input, k, cb);
      }
    }
    if Conserved(s, input, cb) {
      forall k | 0 <= k < |input| ensures !Repairs(After(s, input, k, cb).s, input[k]) {
        ConservedStep(s, input, k, cb);
      }
    }
  }

  lemma ConservedStep(s: Lexer, input: string, k: nat, cb: Callback)
    requires Silent(cb) && Settled(s) && Conserved(s, input, cb) && k < |input|
    ensures !Repairs(After(s, input, k, cb).s, input[k])
  {
    hide LexByte, Settled, Repairs;
    var before, c := After(s, input, k, cb), input[k];
    StaysSettled(s, input, k, cb);
    StepConserves(before.s, c, cb);
    assert input[..k + 1] == input[..k] + [c];
    RunStep(s, input[..k], c, cb);
    var last := LexByte(before.s, c, cb);
    assert |before.out| + |before.s.tag| == |s.tag| + k;
    var after := After(s, input, k + 1, cb);
    assert |after.out| + |after.s.tag| == |s.tag| + k + 1;
  }
}
