/** htmlFilterObject: the filter object whose fields the byte loop updates, its tag hand-over
    and its tag printer. */
module HtmlFilter {
  import opened TagSyntax
  import opened TagParser
  import opened TagRenderings
  import opened TagPrinter
  import opened HtmlLexer
  import opened Wrappers

  ghost predicate TagBegun(s: Lexer) {
    && NUL !in s.tag
    && if s.inTag.T_TEXT? || s.inTag.T_META? || s.inTag.T_COMM? then s.tag == "" else s.tag != [] && s.tag[0] == '<'
  }

  /** A tag buffer that processTag0 may get, once '>' is appended. */
  ghost predicate Begun(tag: string) {
    tag != [] && tag[0] == '<' && NUL !in tag
  }

  lemma Grows(tag: string, c: char)
    requires (tag == "" && c == '<') || Begun(tag)
    requires c != NUL
    ensures Begun(tag + [c])
  {
  }

  lemma InQuotesBegun(s: Lexer, c: char)
    requires Begun(s.tag) && c != NUL && (s.inTag.T_TAG? || s.inTag.T_EQU? || s.inTag.T_DQUOT? || s.inTag.T_SQUOT?)
    ensures TagBegun(InQuotes(s, c).s)
  {
    hide Begun;
    Grows(s.tag, c);
    BegunInTag(InQuotes(s, c).s);
  }

  lemma BegunInTag(s: Lexer)
    requires Begun(s.tag) && !(s.inTag.T_TEXT? || s.inTag.T_META? || s.inTag.T_COMM?)
    ensures TagBegun(s)
  {
  }

  lemma InTagBegun(s: Lexer, c: char, cb: Callback)
    requires Begun(s.tag) && c != NUL && s.inTag.T_TAG?
    ensures TagBegun(InTag(s, c, cb).s)
  {
    hide CallBack, InQuotes;
    if c == '<' {
      Grows("", c);
      BegunInTag(InTag(s, c, cb).s);
    } else if c != '>' {
      InQuotesBegun(if c == '=' then s.(inTag := T_EQU) else s, c);
    }
  }

  lemma AfterEqualsBegun(s: Lexer, c: char, cb: Callback)
    requires Begun(s.tag) && c != NUL
    ensures TagBegun(AfterEquals(s, c, cb).s)
  {
    hide InTag;
    Grows(s.tag, c);
    InTagBegun(s.(inTag := T_TAG), c, cb);
  }

  lemma StaysBegun(s: Lexer, c: char, cb: Callback)
    requires TagBegun(s) && c != NUL
    ensures TagBegun(LexByte(s, c, cb).s)
  {
    hide InTag, InQuotes, AfterEquals;
    match s.inTag {
      case T_TEXT =>
        if c == '<' {
          Grows(s.tag, c);
        }
      case T_STAG => AfterEqualsBegun(if IsSpace(c) then s else s.(inTag := T_TAG), c, cb);
      case T_EQU => AfterEqualsBegun(s, c, cb);
      case T_TAG => InTagBegun(s, c, cb);
      case T_DQUOT => InQuotesBegun(s, c);
      case T_SQUOT => InQuotesBegun(s, c);
      case _ =>
    }
  }

  /** What a chunk makes the filter append when the announced length has been read: blanks
      up to that length. */
  function Blanks(contlen: int, posin: int, posout: int): (b: string)
    ensures |b| == if 0 <= contlen <= posin && posout < contlen then contlen - posout else 0
    ensures forall c :: c in b ==> c == ' '
  {
    if contlen >= 0 && posin >= contlen && posout < contlen then Spaces(contlen - posout) else ""
  }

  function Spaces(n: nat): (s: string)
    ensures |s| == n && forall c :: c in s ==> c == ' '
  {
    if n == 0 then "" else Spaces(n - 1) + " "
  }

  class Filter {
    const contlen: int
    const processTag: Callback
    var posin: int
    var posout: int
    var tag: string
    var inTag: TPos
    var inBSQuot: int
    var eating: bool

    function State(): Lexer
      reads this
    {
      Lexer(inTag, inBSQuot, tag, eating, posout)
    }

    /** Inside a tag the buffer starts with '<', as processTag0 asserts; it never holds NUL. */
    ghost predicate Valid()
      reads this
    {
      TagBegun(State())
    }

    /** htmlContFilter: a new object is all zeroes. */
    constructor (contlen: int, processTag: Callback)
      ensures Valid()
      ensures State() == Lexer(T_TEXT, 0, "", false, 0) && posin == 0
      ensures this.contlen == contlen && this.processTag == processTag
      ensures Settled(State())
    {
      this.contlen, this.processTag := contlen, processTag;
      posin, posout, tag, inTag, inBSQuot, eating := 0, 0, "", T_TEXT, 0, false;
    }

    /** processTag0: the attributes are cut out of the tag in place and read back as C
        strings; the module's callback gets them if there are any. */
    method ProcessTag0(target: string) returns (handled: bool, target': string)
      requires tag != [] && tag[0] == '<' && NUL !in tag[..|tag| - 1]
      modifies this`eating, this`posout
      ensures var r := CallBack(processTag, tag, old(eating));
        && handled == r.handled && eating == r.eating
        && posout == old(posout) + r.advance && target' == target + r.output
      ensures if Parse(tag) == []
        then !handled && eating == old(eating) && posout == old(posout) && target' == target
        else
          var r := processTag(Parse(tag), old(eating));
          && handled == r.handled && eating == r.eating
          && posout == old(posout) + r.advance && target' == target + r.output
    {
      hide Parse, Recorded;
      var n, scratch, ptrs := ParseTag(tag);
      if n > 0 {
        var attrs := ReadBack(n, scratch, ptrs, tag);
        var r := processTag(attrs, eating);
        handled, eating, posout, target' := r.handled, r.eating, posout + r.advance, target + r.output;
      } else {
        handled, target' := false, target;
      }
    }

    /** Dereferencing the attribute and value pointers. */
    method ReadBack(n: nat, scratch: array<char>, ptrs: array<int>, tag: string) returns (attrs: seq<Attribute>)
      requires tag != [] && scratch.Length == ptrs.Length == |tag| && n == |Parse(tag)| <= |tag| / 2
      requires Recorded(scratch[..], ptrs[..], |tag| / 2, Parse(tag), |tag|)
      ensures attrs == Parse(tag)
    {
      hide Parse, CString, Denotes;
      ghost var whole := Parse(tag);
      var vals := |tag| / 2;
      attrs := [];
      var k := 0;
      while k < n
        invariant k <= n && attrs == whole[..k]
      {
        assert Denotes(scratch[..], ptrs[..][k], whole[k].name, |tag|);
        assert ValueDenoted(scratch[..], ptrs[..][vals + k], whole[k].value, |tag|);
        DenotesPosition(scratch[..], ptrs[k], whole[k].name, |tag|);
        DenotesCString(scratch[..], ptrs[k], whole[k].name, |tag|);
        var name := CString(scratch[..], ptrs[k]);
        if ptrs[vals + k] == NULL {
          NullIsNothing(scratch[..], ptrs[vals + k], whole[k].value, |tag|);
          attrs := attrs + [Attribute(name, None)];
        } else {
          DenotesPosition(scratch[..], ptrs[vals + k], whole[k].value.value, |tag|);
          DenotesCString(scratch[..], ptrs[vals + k], whole[k].value.value, |tag|);
          attrs := attrs + [Attribute(name, Some(CString(scratch[..], ptrs[vals + k])))];
        }
        k := k + 1;
      }
      assert whole[..k] == whole;
    }

    /** memBufAppend(&tag, ">"), hand-over, and printing the tag if it is not handled. */
    method EndOfTag(target: string) returns (target': string)
      requires tag != [] ==> tag[0] == '<'
      requires tag != [] && NUL !in tag
      modifies this`tag, this`eating, this`posout
      ensures var e := EndTag(old(State()), processTag);
        && tag == e.s.tag && eating == e.s.eating && posout == e.s.posout
        && target' == target + e.out
    {
      hide Parse, CallBack;
      tag := tag + ">";
      var handled;
      handled, target' := ProcessTag0(target);
      if !handled && !eating {
        target' := target' + tag;
        posout := posout + |tag|;
      }
      tag := "";
    }

    /** goto storeTag */
    method StoreByte(c: char)
      modifies this`tag, this`inBSQuot
      ensures State() == StoreTag(old(State()), c).s
    {
      tag := tag + [c];
      inBSQuot := 0;
    }

    /** goto storeText */
    method PassByte(c: char, target: string) returns (target': string)
      modifies this`posout
      ensures State() == StoreText(old(State()), c).s && target' == target + StoreText(old(State()), c).out
    {
      target' := target;
      if !eating {
        target' := target + [c];
        posout := posout + 1;
      }
    }

    /** case T_DQUOT, case T_SQUOT */
    method QuoteByte(c: char)
      modifies this`tag, this`inBSQuot, this`inTag
      ensures State() == InQuotes(old(State()), c).s
    {
      if inBSQuot == 0 {
        if c == '\\' {
          inBSQuot := 1;
        } else if c == Code(inTag) {
          inTag := T_TAG;
        }
      }
      StoreByte(c);
    }

    /** case T_TAG */
    method TagByte(c: char, target: string) returns (target': string)
      requires tag != [] && tag[0] == '<' && NUL !in tag
      modifies this
      ensures State() == InTag(old(State()), c, processTag).s && posin == old(posin)
      ensures target' == target + InTag(old(State()), c, processTag).out
    {
      hide EndTag, InQuotes;
      ghost var s := State();
      target' := target;
      if c == '>' {
        target' := EndOfTag(target);
        inTag := T_TEXT;
        EndTagKeepsLexing(s, processTag);
      } else if c == '<' {
        target' := EndOfTag(target);
        inTag := T_STAG;
        EndTagKeepsLexing(s, processTag);
        StoreByte(c);
      } else {
        if c == '=' {
          inTag := T_EQU;
        }
        QuoteByte(c);
        QuotesSilent(if c == '=' then s.(inTag := T_EQU) else s, c);
      }
    }

    /** case T_EQU */
    method EqualsByte(c: char, target: string) returns (target': string)
      requires tag != [] && tag[0] == '<' && NUL !in tag
      modifies this
      ensures State() == AfterEquals(old(State()), c, processTag).s && posin == old(posin)
      ensures target' == target + AfterEquals(old(State()), c, processTag).out
    {
      hide InTag;
      target' := target;
      if IsQuote(c) && inBSQuot == 0 {
        tag := tag + [c];
        inTag := if c == '"' then T_DQUOT else T_SQUOT;
      } else {
        inTag := T_TAG;
        target' := TagByte(c, target);
      }
    }

    /** case T_META and case T_COMM */
    method MarkupByte(c: char, target: string) returns (target': string)
      requires inTag.T_META? || inTag.T_COMM?
      modifies this
      ensures State() == LexByte(old(State()), c, processTag).s && posin == old(posin)
      ensures target' == target + LexByte(old(State()), c, processTag).out
    {
      if inTag == T_META {
        if inBSQuot >= 0 {
          if c == '-' {
            inBSQuot := inBSQuot + 1;
            if inBSQuot >= 2 {
              inTag, inBSQuot := T_COMM, 0;
            }
          } else {
            inBSQuot := -1;
          }
        }
        if c == '>' {
          inTag := T_TEXT;
        }
      } else {
        if c == '>' && inBSQuot >= 2 {
          inTag := T_TEXT;
        }
        inBSQuot := if c == '-' then inBSQuot + 1 else 0;
      }
      target' := PassByte(c, target);
    }

    /** case T_STAG */
    method StartByte(c: char, target: string) returns (target': string)
      requires Valid() && inTag.T_STAG?
      modifies this
      ensures State() == LexByte(old(State()), c, processTag).s && posin == old(posin)
      ensures target' == target + LexByte(old(State()), c, processTag).out
    {
      hide AfterEquals;
      target' := target;
      if c == '!' {
        if !eating {
          target' := target + "<!";
          posout := posout + 2;
        }
        tag, inTag, inBSQuot := "", T_META, 0;
      } else if c != '<' {
        if !IsSpace(c) {
          inTag := T_TAG;
        }
        target' := EqualsByte(c, target);
      }
    }

    /** The switch for one byte. */
    method Byte(c: char, target: string) returns (target': string)
      requires Valid() && c != NUL
      modifies this
      ensures Valid() && posin == old(posin)
      ensures State() == LexByte(old(State()), c, processTag).s
      ensures target' == target + LexByte(old(State()), c, processTag).out
    {
      hide InTag, InQuotes, AfterEquals;
      StaysBegun(State(), c, processTag);
      target' := target;
      ghost var s := State();
      match inTag {
        case T_TEXT =>
          if c == '<' {
            inTag := T_STAG;
            StoreByte(c);
          } else {
            target' := PassByte(c, target);
          }
        case T_META => target' := MarkupByte(c, target);
        case T_COMM => target' := MarkupByte(c, target);
        case T_STAG => target' := StartByte(c, target);
        case T_EQU => target' := EqualsByte(c, target);
        case T_TAG => target' := TagByte(c, target);
        case _ =>
          QuoteByte(c);
          QuotesSilent(s, c);
      }
    }

    /** htmlCfFilter: -1 on a NUL byte; otherwise exactly the lexer's run over the chunk,
        followed by blanks if the announced length has been read but not written. */
    method CfFilter(buf: string, target: string) returns (ret: int, target': string)
      requires Valid()
      modifies this
      ensures Valid() && posin == old(posin) + |buf|
      ensures ret == 0 || ret == -1
      ensures ret == -1 <==> NUL in buf
      ensures ret == 0 ==>
        var e := Run(old(State()), buf, processTag);
        && State() == e.s
        && target' == target + e.out + Blanks(contlen, posin, posout)
    {
      hide LexByte;
      posin := posin + |buf|;
      target' := target;
      var i := 0;
      assert buf[..0] == [];
      while i < |buf|
        invariant i <= |buf| && Valid() && posin == old(posin) + |buf|
        invariant NUL !in buf[..i]
        invariant State() == Run(old(State()), buf[..i], processTag).s
        invariant target' == target + Run(old(State()), buf[..i], processTag).out
      {
        if buf[i] == NUL {
          ret := -1;
          return;
        }
        assert buf[..i + 1] == buf[..i] + [buf[i]];
        RunStep(old(State()), buf[..i], buf[i], processTag);
        target' := Byte(buf[i], target');
        i := i + 1;
      }
      assert buf[..i] == buf;
      if contlen >= 0 && posin >= contlen {
        ghost var filtered := target';
        var k := posout;
        while k < contlen
          invariant k == posout || posout <= k <= contlen
          invariant target' == filtered + Spaces(k - posout)
        {
          target' := target' + " ";
          k := k + 1;
        }
      }
      ret := 0;
    }

    /** insertTag: prints the tag name and every attribute that is not NULL, unless output is
        suppressed or a known length leaves no room; posout advances by what was printed. */
    method InsertTag(attribs: seq<Option<string>>, values: seq<Option<string>>, target: string) returns (target': string)
      requires |attribs| == |values| && attribs != [] && attribs[0].Some?
      modifies this`posout
      ensures var printed := Print(Kept(attribs, values));
        if eating || (contlen > 0 && old(posout) + |printed| > posin)
        then target' == target && posout == old(posout)
        else target' == target + printed && posout == old(posout) + |printed|
    {
      target' := target;
      if eating {
        return;
      }
      var len := PrintedLength(attribs, values);
      if contlen > 0 && posout + len > posin {
        return;
      }
      target' := PrintTag(attribs, values, target);
      posout := posout + len;
    }

    /** The printing part of insertTag. */
    method PrintTag(attribs: seq<Option<string>>, values: seq<Option<string>>, target: string) returns (target': string)
      requires |attribs| == |values| && attribs != [] && attribs[0].Some?
      ensures target' == target + Print(Kept(attribs, values))
    {
      hide Print, KeptText, Piece;
      FirstText(attribs, values);
      target' := target + "<" + attribs[0].value;
      Regroup(target, "<", attribs[0].value);
      var i := 1;
      while i < |attribs|
        invariant 1 <= i <= |attribs|
        invariant target' == target + KeptText(attribs, values, i)
      {
        KeptStep(attribs, values, i);
        if attribs[i].Some? {
          PieceAppended(target, KeptText(attribs, values, i), attribs[i].value, values[i]);
          target' := target' + " " + attribs[i].value;
          if values[i].Some? {
            target' := target' + "=" + values[i].value;
          }
        }
        i := i + 1;
      }
      KeptPrefix(attribs, values);
      Regroup(target, KeptText(attribs, values, |attribs|), ">");
      target' := target' + ">";
    }

    /** The length computed before printing. */
    method PrintedLength(attribs: seq<Option<string>>, values: seq<Option<string>>) returns (len: int)
      requires |attribs| == |values| && attribs != [] && attribs[0].Some?
      ensures len == |Print(Kept(attribs, values))|
    {
      hide Print, KeptText;
      FirstText(attribs, values);
      len := 2 + |attribs[0].value|;
      var i := 1;
      while i < |attribs|
        invariant 1 <= i <= |attribs|
        invariant len == |KeptText(attribs, values, i)| + 1
      {
        KeptStep(attribs, values, i);
        if attribs[i].Some? {
          len := len + |attribs[i].value| + 1;
          if values[i].Some? {
            len := len + |values[i].value| + 1;
          }
        }
        i := i + 1;
      }
      KeptPrefix(attribs, values);
    }
  }

  /** A body of unknown length, handed to the filter chunk by chunk: the object ends in the
      state, and the target with the output, of one call on the whole; a NUL byte anywhere
      stops it. */
  method FilterChunks(f: Filter, chunks: seq<string>, target: string) returns (ret: int, target': string)
    requires f.Valid() && f.contlen < 0
    modifies f
    ensures f.Valid() && (ret == 0 || ret == -1) && (ret == -1 <==> NUL in Concat(chunks))
    ensures ret == 0 ==>
      var e := Run(old(f.State()), Concat(chunks), f.processTag);
      f.State() == e.s && target' == target + e.out && f.posin == old(f.posin) + |Concat(chunks)|
  {
    hide Run, Filter.State, TagBegun;
    ret, target' := 0, target;
    var i := 0;
    assert chunks[..0] == [];
    NothingRun(f.State(), f.processTag);
    while i < |chunks|
      invariant i <= |chunks| && ret == 0 && f.Valid() && NUL !in Concat(chunks[..i])
      invariant f.State() == Run(old(f.State()), Concat(chunks[..i]), f.processTag).s
      invariant target' == target + Run(old(f.State()), Concat(chunks[..i]), f.processTag).out
      invariant f.posin == old(f.posin) + |Concat(chunks[..i])|
    {
      assert chunks[..i + 1][..i] == chunks[..i];
      RunAppend(old(f.State()), Concat(chunks[..i]), chunks[i], f.processTag);
      ret, target' := f.CfFilter(chunks[i], target');
      i := i + 1;
      if ret == -1 {
        ConcatHolds(chunks, i);
        return;
      }
    }
    assert chunks[..i] == chunks;
  }

  lemma NothingRun(s: Lexer, cb: Callback)
    ensures Run(s, "", cb) == Effect(s, "")
  {
  }

  /** What is in the first chunks is in the whole. */
  lemma {:induction false} ConcatHolds(chunks: seq<string>, i: nat)
    requires i <= |chunks|
    ensures forall c :: c in Concat(chunks[..i]) ==> c in Concat(chunks)
    decreases |chunks|
  {
    if i < |chunks| {
      var init := chunks[..|chunks| - 1];
      assert init[..i] == chunks[..i];
      ConcatHolds(init, i);
    } else {
      assert chunks[..i] == chunks;
    }
  }

  /** The attributes insertTag prints: the name without a value, then those not NULL. */
  function Kept(attribs: seq<Option<string>>, values: seq<Option<string>>): (attrs: seq<Attribute>)
    requires |attribs| == |values| && attribs != [] && attribs[0].Some?
    ensures attrs != []
  {
    if |attribs| == 1 then [Attribute(attribs[0].value, None)]
    else
      var n := |attribs| - 1;
      Kept(attribs[..n], values[..n]) +
      if attribs[n].Some? then [Attribute(attribs[n].value, values[n])] else []
  }

  /** How many of them are not NULL */
  function Given(attribs: seq<Option<string>>): nat {
    if attribs == [] then 0
    else Given(attribs[..|attribs| - 1]) + if attribs[|attribs| - 1].Some? then 1 else 0
  }

  /** Attribute i, if it is not NULL, comes behind as many as are not NULL before it; the tag's
      name has no value. */
  lemma {:induction false} KeptAt(attribs: seq<Option<string>>, values: seq<Option<string>>, i: nat)
    requires |attribs| == |values| && attribs != [] && attribs[0].Some? && i < |attribs|
    ensures |Kept(attribs, values)| == Given(attribs)
    ensures attribs[i].Some? ==>
      var k := Given(attribs[..i]);
      && k < |Kept(attribs, values)|
      && Kept(attribs, values)[k] == Attribute(attribs[i].value, if i == 0 then None else values[i])
  {
    var n := |attribs| - 1;
    if n > 0 {
      KeptAt(attribs[..n], values[..n], if i < n then i else 0);
      if i < n {
        assert attribs[..n][..i] == attribs[..i];
      }
    } else {
      assert attribs[..n] == [];
    }
  }

  /** The text of the first i of them. */
  ghost function KeptText(attribs: seq<Option<string>>, values: seq<Option<string>>, i: nat): string
    requires |attribs| == |values| && 1 <= i <= |attribs| && attribs[0].Some?
  {
    var attrs := Kept(attribs[..i], values[..i]);
    Text(attrs, |attrs|)
  }

  /** Appending an attribute in parts appends its piece. */
  lemma PieceAppended(target: string, before: string, name: string, value: Option<string>)
    ensures var named := (target + before) + " " + name;
      (if value.Some? then named + "=" + value.value else named) == target + (before + Piece(Attribute(name, value)))
  {
    if value.Some? {
      Joined(target + before, " ", name, "=", value.value);
      Regroup(target, before, " " + name + ("=" + value.value));
    } else {
      Regroup(target + before, " ", name);
      Regroup(target, before, " " + name);
      assert " " + name + "" == " " + name;
    }
  }

  lemma Joined(a: string, b: string, c: string, d: string, e: string)
    ensures a + b + c + d + e == a + (b + c + (d + e))
  {
  }

  lemma FirstText(attribs: seq<Option<string>>, values: seq<Option<string>>)
    requires |attribs| == |values| && attribs != [] && attribs[0].Some?
    ensures KeptText(attribs, values, 1) == "<" + attribs[0].value
  {
  }

  lemma KeptStep(attribs: seq<Option<string>>, values: seq<Option<string>>, i: nat)
    requires |attribs| == |values| && 1 <= i < |attribs| && attribs[0].Some?
    ensures KeptText(attribs, values, i + 1) == KeptText(attribs, values, i) +
      if attribs[i].Some? then Piece(Attribute(attribs[i].value, values[i])) else ""
  {
    hide Piece;
    var before, after := Kept(attribs[..i], values[..i]), Kept(attribs[..i + 1], values[..i + 1]);
    KeptOneMore(attribs, values, i);
    if attribs[i].Some? {
      TextOneMore(before, Attribute(attribs[i].value, values[i]));
    }
  }

  lemma KeptOneMore(attribs: seq<Option<string>>, values: seq<Option<string>>, i: nat)
    requires |attribs| == |values| && 1 <= i < |attribs| && attribs[0].Some?
    ensures var before := Kept(attribs[..i], values[..i]);
      Kept(attribs[..i + 1], values[..i + 1]) ==
        if attribs[i].Some? then before + [Attribute(attribs[i].value, values[i])] else before
  {
    assert attribs[..i + 1][..i] == attribs[..i] && values[..i + 1][..i] == values[..i];
  }

  lemma TextOneMore(attrs: seq<Attribute>, a: Attribute)
    requires attrs != []
    ensures Text(attrs + [a], |attrs| + 1) == Text(attrs, |attrs|) + Piece(a)
  {
    hide PrintValue, Text;
    var longer, n := attrs + [a], |attrs|;
    TextExtends(attrs, a, n);
    assert longer[n] == a;
    TextUnfolds(longer, n + 1);
    Regroup(Text(attrs, n), " " + a.name, PrintValue(a.value));
    Regroup(Text(attrs, n), " ", a.name);
  }

  lemma TextUnfolds(attrs: seq<Attribute>, k: nat)
    requires 1 < k <= |attrs|
    ensures Text(attrs, k) == Text(attrs, k - 1) + " " + attrs[k - 1].name + PrintValue(attrs[k - 1].value)
  {
    hide PrintValue;
  }

  lemma Regroup(x: string, y: string, z: string)
    ensures (x + y) + z == x + (y + z)
  {
  }

  lemma {:induction false} TextExtends(attrs: seq<Attribute>, a: Attribute, k: nat)
    requires 1 <= k <= |attrs|
    ensures Text(attrs + [a], k) == Text(attrs, k)
  {
    if k > 1 {
      TextExtends(attrs, a, k - 1);
    }
  }

  lemma KeptPrefix(attribs: seq<Option<string>>, values: seq<Option<string>>)
    requires |attribs| == |values| && attribs != [] && attribs[0].Some?
    ensures Print(Kept(attribs, values)) == KeptText(attribs, values, |attribs|) + ">"
  {
    assert attribs[..|attribs|] == attribs && values[..|values|] == values;
  }

  /** What insertTag prints, processTag0 reads back: the tag name, and every attribute that
      is not NULL with its value, in order. */
  lemma InsertedTagIsReadBack(attribs: seq<Option<string>>, values: seq<Option<string>>)
    requires |attribs| == |values| && attribs != [] && attribs[0].Some?
    requires forall i :: 0 <= i < |attribs| && attribs[i].Some? ==> GoodName(attribs[i].value)
    requires forall i :: 0 < i < |values| && attribs[i].Some? && values[i].Some? ==> GoodValue(values[i].value)
    ensures Parse(Print(Kept(attribs, values))) == Kept(attribs, values)
  {
    KeptPrintable(attribs, values);
    ParsePrint(Kept(attribs, values));
  }

  lemma {:induction false} KeptPrintable(attribs: seq<Option<string>>, values: seq<Option<string>>)
    requires |attribs| == |values| && attribs != [] && attribs[0].Some?
    requires forall i :: 0 <= i < |attribs| && attribs[i].Some? ==> GoodName(attribs[i].value)
    requires forall i :: 0 < i < |values| && attribs[i].Some? && values[i].Some? ==> GoodValue(values[i].value)
    ensures Printable(Kept(attribs, values))
  {
    hide GoodName, GoodValue;
    if |attribs| > 1 {
      var n := |attribs| - 1;
      KeptPrintable(attribs[..n], values[..n]);
    }
  }

  /** Handing a tag over leaves the lexer's position alone. */
  lemma EndTagKeepsLexing(s: Lexer, cb: Callback)
    ensures EndTag(s, cb).s.inTag == s.inTag && EndTag(s, cb).s.inBSQuot == s.inBSQuot
  {
    hide CallBack;
  }

  lemma QuotesSilent(s: Lexer, c: char)
    ensures InQuotes(s, c).out == ""
  {
  }

  lemma DenotesPosition(a: seq<char>, ptr: int, text: string, limit: nat)
    requires Denotes(a, ptr, text, limit)
    ensures 0 <= ptr < |a|
  {
  }

  lemma NullIsNothing(a: seq<char>, ptr: int, value: Option<string>, limit: nat)
    requires ValueDenoted(a, ptr, value, limit) && ptr == NULL
    ensures value == None
  {
  }
}
