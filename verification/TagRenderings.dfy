/** Tags as they are written by hand: attributes apart by any white space, values bare or in
    either kind of quotes, white space around '=', and comments. What processTag0 reads is
    what is meant. */
module TagRenderings {
  import opened TagSyntax
  import opened Wrappers

  datatype Quoting = Bare | Double | Single

  /** An attribute without a value, or with one, or with an empty one that is not written; or
      a comment, which counts as an attribute; each behind some white space. */
  datatype Part =
    | Name(sep: string, name: string)
    | Pair(sep: string, name: string, before: string, after: string, value: string, quoting: Quoting)
    | Empty(sep: string, name: string, before: string)
    | Comment(sep: string, text: string)

  function Meaning(p: Part): Attribute {
    match p
    case Name(_, name) => Attribute(name, None)
    case Pair(_, name, _, _, value, _) => Attribute(name, Some(value))
    case Empty(_, name, _) => Attribute(name, Some(""))
    case Comment(_, text) => Attribute(text, None)
  }

  function Written(value: string, quoting: Quoting): string {
    match quoting
    case Bare => value
    case Double => "\"" + value + "\""
    case Single => "'" + value + "'"
  }

  /** What is written behind the name */
  function Rest(p: Part): string {
    match p
    case Pair(_, _, before, after, value, quoting) => before + ("=" + (after + Written(value, quoting)))
    case Empty(_, _, before) => before + "="
    case _ => ""
  }

  /** The part without the white space before it */
  function Body(p: Part): string {
    if p.Comment? then p.text else p.name + Rest(p)
  }

  function Meanings(ps: seq<Part>): (attrs: seq<Attribute>) {
    if ps == [] then [] else [Meaning(ps[0])] + Meanings(ps[1..])
  }

  function RenderParts(ps: seq<Part>): string {
    if ps == [] then "" else ps[0].sep + (Body(ps[0]) + RenderParts(ps[1..]))
  }

  function RenderTag(ps: seq<Part>, pad: string): string {
    "<" + (RenderParts(ps) + pad) + ">"
  }

  predicate White(s: string) {
    forall k :: 0 <= k < |s| ==> s[k] in " \t\n\r\U{B}\U{C}"
  }

  predicate GoodName(s: string) {
    && s != ""
    && (forall k :: 0 <= k < |s| ==> s[k] !in " \t\n\r\U{B}\U{C}=")
    && !(|s| >= 2 && s[0] == '-' && s[1] == '-')
  }

  predicate GoodValue(s: string) {
    s != "" && forall k :: 0 <= k < |s| ==> s[k] !in " \t\n\r\U{B}\U{C}'\""
  }

  /** In quotes anything goes but the quote itself, and even that behind a backslash. A
      backslash at the end would protect the closing quote. */
  predicate GoodQuoted(s: string, quote: char) {
    && (forall k :: 0 <= k < |s| && s[k] == quote ==> k > 0 && s[k - 1] == '\\')
    && (s != "" ==> s[|s| - 1] != '\\')
  }

  /** A comment lasts to the first white space behind two dashes, from its fourth byte on. */
  predicate GoodComment(s: string) {
    && |s| >= 3 && s[0] == '-' && s[1] == '-' && s[|s| - 2] == '-' && s[|s| - 1] == '-'
    && forall k :: 3 <= k < |s| && s[k - 2] == '-' && s[k - 1] == '-' ==> s[k] !in " \t\n\r\U{B}\U{C}"
  }

  /** White space on both sides of '=' is not allowed: the first is taken for the end of the
      name, and then the second for an empty value. */
  predicate Good(p: Part) {
    && White(p.sep)
    && match p
       case Name(_, name) => GoodName(name)
       case Pair(_, name, before, after, value, quoting) =>
         && GoodName(name) && White(before) && White(after) && (before == "" || after == "")
         && (match quoting
             case Bare => GoodValue(value)
             case Double => GoodQuoted(value, '"')
             case Single => GoodQuoted(value, '\''))
       case Empty(_, name, before) => GoodName(name) && White(before) && before != ""
       case Comment(_, text) => GoodComment(text)
  }

  ghost predicate GoodParts(ps: seq<Part>) {
    forall k :: 0 <= k < |ps| ==> Good(ps[k]) && (k > 0 ==> ps[k].sep != "")
  }

  // ----- The text at a position of the tag -----

  /** From position a on the tag reads x. */
  predicate At(t: string, a: nat, x: string) {
    a + |x| <= |t| && t[a..a + |x|] == x
  }

  lemma Peel(t: string, a: nat, x: string, y: string)
    requires At(t, a, x + y)
    ensures At(t, a, x) && At(t, a + |x|, y)
  {
    forall k | 0 <= k < |x| ensures t[a + k] == x[k] {
      assert t[a..a + |x + y|][k] == (x + y)[k];
    }
    forall k | 0 <= k < |y| ensures t[a + |x| + k] == y[k] {
      assert t[a..a + |x + y|][|x| + k] == (x + y)[|x| + k];
    }
  }

  lemma Bytes(t: string, a: nat, x: string)
    requires At(t, a, x)
    ensures forall k :: 0 <= k < |x| ==> t[a + k] == x[k]
    ensures forall k :: a <= k < a + |x| ==> t[k] == x[k - a]
  {
    forall k | 0 <= k < |x| ensures t[a + k] == x[k] {
      assert t[a..a + |x|][k] == x[k];
    }
  }

  // ----- How the scanner crosses the parts -----

  /** Between attributes, of which these have been read */
  ghost predicate Between(t: string, s: Scanner, attrs: seq<Attribute>) {
    InPlace(t, s) && s.v.V_WSP? && s.i <= |t| - 1 && s.attrs == attrs
  }

  /** If the attribute being read ends here, these have been read. */
  ghost predicate ReadUpTo(t: string, s: Scanner, attrs: seq<Attribute>) {
    && InPlace(t, s) && s.i <= |t| - 1
    && match s.v
       case V_ATT => s.attrs + [Attribute(t[s.p..s.i], None)] == attrs
       case V_COMM => s.i > 2 && t[s.i - 1] == '-' && t[s.i - 2] == '-' && s.attrs + [Attribute(t[s.p..s.i], None)] == attrs
       case V_VAL => EndValue(t, s, s.i) == attrs
       case _ => false
  }

  lemma WhiteStep(t: string, s: Scanner)
    requires InPlace(t, s) && (s.v.V_WSP? || s.v.V_SVAL?) && s.i < |t| - 1 && t[s.i] in " \t\n\r\U{B}\U{C}"
    ensures Step(t, s) == s.(i := s.i + 1) && Scan(t, s) == Scan(t, s.(i := s.i + 1))
  {
  }

  lemma {:induction false} SkipWhite(t: string, s: Scanner, w: string)
    requires InPlace(t, s) && (s.v.V_WSP? || s.v.V_SVAL?) && At(t, s.i, w) && s.i + |w| <= |t| - 1 && White(w)
    ensures InPlace(t, s.(i := s.i + |w|)) && Scan(t, s) == Scan(t, s.(i := s.i + |w|))
    decreases |w|
  {
    hide Step, Scan;
    if w != "" {
      Bytes(t, s.i, w);
      assert t[s.i] == w[0];
      WhiteStep(t, s);
      assert w == w[..1] + w[1..];
      Peel(t, s.i, w[..1], w[1..]);
      SkipWhite(t, s.(i := s.i + 1), w[1..]);
    }
  }

  lemma PartEnds(t: string, s: Scanner, attrs: seq<Attribute>) returns (s': Scanner)
    requires ReadUpTo(t, s, attrs) && s.i < |t| - 1 && t[s.i] in " \t\n\r\U{B}\U{C}"
    ensures Between(t, s', attrs) && s'.i == s.i + 1 && Scan(t, s) == Scan(t, s')
  {
    s' := Step(t, s);
  }

  /** The attribute being read ends at white space. */
  lemma EndPart(t: string, s: Scanner, attrs: seq<Attribute>, w: string) returns (s': Scanner)
    requires ReadUpTo(t, s, attrs) && w != "" && White(w) && At(t, s.i, w) && s.i + |w| <= |t| - 1
    ensures Between(t, s', attrs) && s'.i == s.i + |w| && Scan(t, s) == Scan(t, s')
  {
    hide Step, Scan, InPlace, ReadUpTo;
    Bytes(t, s.i, w);
    assert t[s.i] == w[0];
    var next := PartEnds(t, s, attrs);
    assert w == w[..1] + w[1..];
    Peel(t, s.i, w[..1], w[1..]);
    SkipWhite(t, next, w[1..]);
    s' := next.(i := s.i + |w|);
  }

  lemma {:induction false} ScanName(t: string, s: Scanner, e: nat)
    requires InPlace(t, s) && s.v.V_ATT? && s.i <= e <= |t| - 1
    requires forall k :: s.i <= k < e ==> t[k] !in " \t\n\r\U{B}\U{C}="
    ensures InPlace(t, s.(i := e)) && Scan(t, s) == Scan(t, s.(i := e))
    decreases e - s.i
  {
    if s.i < e {
      assert Step(t, s) == s.(i := s.i + 1);
      ScanName(t, s.(i := s.i + 1), e);
    }
  }

  lemma EnterName(t: string, s: Scanner, attrs: seq<Attribute>, name: string) returns (s': Scanner)
    requires Between(t, s, attrs) && GoodName(name) && At(t, s.i, name)
    requires s.i + |name| <= |t| - 1 && t[s.i + |name|] != '-'
    ensures s'.v.V_ATT? && s'.attrs == attrs && s'.i == s.i + |name|
    ensures ReadUpTo(t, s', attrs + [Attribute(name, None)]) && Scan(t, s) == Scan(t, s')
  {
    Bytes(t, s.i, name);
    assert t[s.i] == name[0];
    assert Step(t, s) == Scanner(s.i + 1, V_ATT, V_WSP, s.i, attrs);
    ScanName(t, Scanner(s.i + 1, V_ATT, V_WSP, s.i, attrs), s.i + |name|);
    s' := Scanner(s.i + |name|, V_ATT, V_WSP, s.i, attrs);
  }

  /** Behind '=' and perhaps white space, where a value starts */
  ghost predicate ValueStarts(t: string, s: Scanner, attrs: seq<Attribute>) {
    && InPlace(t, s) && (s.v.V_SVAL? || (s.v.V_VAL? && s.p == s.i)) && s.v0.V_WSP?
    && s.attrs == attrs
  }

  lemma EqualsBehindName(t: string, s: Scanner, attrs: seq<Attribute>) returns (s': Scanner)
    requires ReadUpTo(t, s, attrs) && s.v.V_ATT? && s.i < |t| - 1 && t[s.i] == '='
    ensures s'.v.V_SVAL? && ValueStarts(t, s', attrs) && s'.i == s.i + 1 && Scan(t, s) == Scan(t, s')
  {
    s' := Step(t, s);
  }

  lemma EqualsBehindWhite(t: string, s: Scanner, attrs: seq<Attribute>) returns (s': Scanner)
    requires Between(t, s, attrs) && attrs != [] && s.i < |t| - 1 && t[s.i] == '='
    ensures s'.v.V_VAL? && ValueStarts(t, s', attrs) && s'.i == s.i + 1 && Scan(t, s) == Scan(t, s')
  {
    s' := Step(t, s);
  }

  /** '=' directly behind the name, or after white space */
  lemma EnterPair(t: string, s: Scanner, attrs: seq<Attribute>, before: string, after: string) returns (s': Scanner)
    requires ReadUpTo(t, s, attrs) && s.v.V_ATT? && White(before) && White(after) && (before == "" || after == "")
    requires At(t, s.i, before + ("=" + after)) && s.i + |before| + 1 + |after| <= |t| - 1
    ensures attrs != [] && ValueStarts(t, s', attrs) && s'.i == s.i + |before| + 1 + |after| && Scan(t, s) == Scan(t, s')
    ensures before != "" ==> s'.v.V_VAL?
  {
    hide Step, Scan, InPlace;
    Peel(t, s.i, before, "=" + after);
    Peel(t, s.i + |before|, "=", after);
    Bytes(t, s.i + |before|, "=");
    assert t[s.i + |before| + 0] == '=';
    if before == "" {
      var next := EqualsBehindName(t, s, attrs);
      SkipWhite(t, next, after);
      s' := next.(i := next.i + |after|);
    } else {
      var between := EndPart(t, s, attrs, before);
      s' := EqualsBehindWhite(t, between, attrs);
    }
  }

  lemma {:induction false} ScanValue(t: string, s: Scanner, e: nat)
    requires InPlace(t, s) && s.v.V_VAL? && s.i <= e <= |t| - 1
    requires forall k :: s.i <= k < e ==> t[k] !in " \t\n\r\U{B}\U{C}'\""
    ensures InPlace(t, s.(i := e)) && Scan(t, s) == Scan(t, s.(i := e))
    decreases e - s.i
  {
    if s.i < e {
      assert Step(t, s) == s.(i := s.i + 1);
      ScanValue(t, s.(i := s.i + 1), e);
    }
  }

  lemma BareValue(t: string, s: Scanner, attrs: seq<Attribute>, value: string) returns (s': Scanner)
    requires ValueStarts(t, s, attrs) && attrs != [] && GoodValue(value) && At(t, s.i, value) && s.i + |value| <= |t| - 1
    ensures s'.i == s.i + |value| && ReadUpTo(t, s', WithValue(attrs, value)) && Scan(t, s) == Scan(t, s')
  {
    Bytes(t, s.i, value);
    assert t[s.i] == value[0];
    assert Step(t, s) == Scanner(s.i + 1, V_VAL, V_WSP, s.i, attrs);
    ScanValue(t, Scanner(s.i + 1, V_VAL, V_WSP, s.i, attrs), s.i + |value|);
    s' := Scanner(s.i + |value|, V_VAL, V_WSP, s.i, attrs);
  }

  lemma {:induction false} ScanQuoted(t: string, s: Scanner, e: nat, quote: char)
    requires InPlace(t, s) && s.i <= e <= |t| - 1 && s.v == (if quote == '"' then V_DQUOT else V_SQUOT)
    requires (quote == '"' || quote == '\'') && forall k :: s.i <= k < e && t[k] == quote ==> t[k - 1] == '\\'
    ensures InPlace(t, s.(i := e)) && Scan(t, s) == Scan(t, s.(i := e))
    decreases e - s.i
  {
    if s.i < e {
      assert Step(t, s) == s.(i := s.i + 1);
      ScanQuoted(t, s.(i := s.i + 1), e, quote);
    }
  }

  lemma OpenQuote(t: string, s: Scanner, attrs: seq<Attribute>, quote: char)
    requires ValueStarts(t, s, attrs) && s.i < |t| - 1 && (quote == '"' || quote == '\'') && t[s.i] == quote
    ensures var kind := if quote == '"' then V_DQUOT else V_SQUOT;
      var s' := Scanner(s.i + 1, kind, kind, s.i, attrs);
      InPlace(t, s') && Scan(t, s) == Scan(t, s')
  {
    var kind := if quote == '"' then V_DQUOT else V_SQUOT;
    assert Step(t, s) == Scanner(s.i + 1, kind, kind, s.i, attrs);
  }

  lemma CloseQuote(t: string, s: Scanner, quote: char)
    requires InPlace(t, s) && s.v == (if quote == '"' then V_DQUOT else V_SQUOT) && s.i < |t| - 1
    requires (quote == '"' || quote == '\'') && t[s.i] == quote && t[s.i - 1] != '\\'
    ensures var s' := s.(i := s.i + 1, v := V_VAL);
      InPlace(t, s') && Quoted(s') && Scan(t, s) == Scan(t, s')
  {
  }

  lemma QuotedValue(t: string, s: Scanner, attrs: seq<Attribute>, value: string, quote: char) returns (s': Scanner)
    requires ValueStarts(t, s, attrs) && attrs != [] && (quote == '"' || quote == '\'') && GoodQuoted(value, quote)
    requires At(t, s.i, [quote] + value + [quote]) && s.i + |value| + 2 <= |t| - 1
    ensures s'.i == s.i + |value| + 2 && ReadUpTo(t, s', WithValue(attrs, value)) && Scan(t, s) == Scan(t, s')
  {
    hide Step, Scan, InPlace, At, GoodQuoted, ReadUpTo, ValueStarts;
    var e := s.i + 1 + |value|;
    QuotedBytes(t, s.i, value, quote);
    OpenQuote(t, s, attrs, quote);
    var kind := if quote == '"' then V_DQUOT else V_SQUOT;
    ScanQuoted(t, Scanner(s.i + 1, kind, kind, s.i, attrs), e, quote);
    CloseQuote(t, Scanner(e, kind, kind, s.i, attrs), quote);
    s' := Scanner(e + 1, V_VAL, kind, s.i, attrs);
    QuotedRead(t, s', value);
  }

  lemma QuotedRead(t: string, s: Scanner, value: string)
    requires InPlace(t, s) && s.v.V_VAL? && Quoted(s) && s.attrs != [] && s.p + 1 < s.i <= |t| - 1
    requires t[s.p + 1..s.i - 1] == value
    ensures ReadUpTo(t, s, WithValue(s.attrs, value))
  {
    hide InPlace;
  }

  lemma QuotedBytes(t: string, a: nat, value: string, quote: char)
    requires At(t, a, [quote] + value + [quote]) && GoodQuoted(value, quote) && quote != '\\'
    ensures var e := a + 1 + |value|;
      && t[a] == t[e] == quote && t[e - 1] != '\\' && t[a + 1..e] == value
      && forall k :: a + 1 <= k < e && t[k] == quote ==> t[k - 1] == '\\'
  {
    var e := a + 1 + |value|;
    Peel(t, a, [quote] + value, [quote]);
    Peel(t, a, [quote], value);
    Bytes(t, a, [quote]);
    Bytes(t, e, [quote]);
    Bytes(t, a + 1, value);
    assert t[a + 0] == quote && t[e + 0] == quote;
    assert t[e - 1] == if value == "" then quote else value[|value| - 1];
    forall k | a + 1 <= k < e && t[k] == quote ensures t[k - 1] == '\\' {
      assert t[k] == value[k - a - 1];
    }
  }

  lemma {:induction false} ScanComment(t: string, s: Scanner, e: nat)
    requires InPlace(t, s) && s.v.V_COMM? && 3 < s.i <= e <= |t| - 1
    requires forall k :: s.i <= k < e && t[k - 2] == '-' && t[k - 1] == '-' ==> t[k] !in " \t\n\r\U{B}\U{C}"
    ensures InPlace(t, s.(i := e)) && Scan(t, s) == Scan(t, s.(i := e))
    decreases e - s.i
  {
    if s.i < e {
      assert Step(t, s) == s.(i := s.i + 1);
      ScanComment(t, s.(i := s.i + 1), e);
    }
  }

  lemma CommentBegins(t: string, s: Scanner, attrs: seq<Attribute>)
    requires Between(t, s, attrs) && s.i + 3 <= |t| - 1 && t[s.i] == '-' && t[s.i + 1] == '-'
    ensures var s' := Scanner(s.i + 3, V_COMM, V_WSP, s.i, attrs);
      1 <= s.i && InPlace(t, s') && Scan(t, s) == Scan(t, s')
  {
  }

  lemma ReadComment(t: string, s: Scanner, attrs: seq<Attribute>, text: string) returns (s': Scanner)
    requires Between(t, s, attrs) && GoodComment(text) && At(t, s.i, text) && s.i + |text| <= |t| - 1
    ensures s'.i == s.i + |text| && ReadUpTo(t, s', attrs + [Attribute(text, None)]) && Scan(t, s) == Scan(t, s')
  {
    hide Step, Scan, InPlace, At, GoodComment, Between, ReadUpTo;
    var e := s.i + |text|;
    CommentBytes(t, s.i, text);
    CommentBegins(t, s, attrs);
    var inside := Scanner(s.i + 3, V_COMM, V_WSP, s.i, attrs);
    ScanComment(t, inside, e);
    s' := inside.(i := e);
    CommentRead(t, s', text);
  }

  lemma CommentBytes(t: string, a: nat, text: string)
    requires At(t, a, text) && GoodComment(text)
    ensures var e := a + |text|;
      && a + 3 <= e && t[a] == t[a + 1] == t[e - 2] == t[e - 1] == '-' && t[a..e] == text
      && forall k :: a + 3 <= k < e && t[k - 2] == '-' && t[k - 1] == '-' ==> t[k] !in " \t\n\r\U{B}\U{C}"
  {
    var e := a + |text|;
    Bytes(t, a, text);
    assert t[a] == text[0] && t[a + 1] == text[1] && t[e - 2] == text[|text| - 2] && t[e - 1] == text[|text| - 1];
    forall k | a + 3 <= k < e && t[k - 2] == '-' && t[k - 1] == '-' ensures t[k] !in " \t\n\r\U{B}\U{C}" {
      var j := k - a;
      assert t[k] == text[j] && t[k - 1] == text[j - 1] && t[k - 2] == text[j - 2];
    }
  }

  lemma CommentRead(t: string, s: Scanner, text: string)
    requires InPlace(t, s) && s.v.V_COMM? && 2 < s.i <= |t| - 1 && t[s.i - 1] == '-' && t[s.i - 2] == '-'
    requires s.p <= s.i && t[s.p..s.i] == text
    ensures ReadUpTo(t, s, s.attrs + [Attribute(text, None)])
  {
    hide InPlace;
  }

  /** The value of a pair, behind the name */
  lemma ReadValue(t: string, s: Scanner, attrs: seq<Attribute>, p: Part) returns (s': Scanner)
    requires p.Pair? && Good(p) && ReadUpTo(t, s, attrs) && s.v.V_ATT?
    requires At(t, s.i, Rest(p)) && s.i + |Rest(p)| <= |t| - 1
    ensures s'.i == s.i + |Rest(p)|
    ensures attrs != [] && ReadUpTo(t, s', WithValue(attrs, p.value)) && Scan(t, s) == Scan(t, s')
  {
    hide Step, Scan, InPlace, ReadUpTo, At, ValueStarts, Good, White, Rest, Written;
    PairRest(p);
    Peel(t, s.i, p.before + ("=" + p.after), Written(p.value, p.quoting));
    var start := EnterPair(t, s, attrs, p.before, p.after);
    s' := ReadWritten(t, start, attrs, p);
  }

  lemma PairRest(p: Part)
    requires p.Pair? && Good(p)
    ensures White(p.before) && White(p.after) && (p.before == "" || p.after == "")
    ensures Rest(p) == (p.before + ("=" + p.after)) + Written(p.value, p.quoting)
  {
    hide White, GoodName, GoodValue, GoodQuoted, Written;
    var w := Written(p.value, p.quoting);
    assert p.before + ("=" + (p.after + w)) == (p.before + ("=" + p.after)) + w;
  }

  lemma ReadWritten(t: string, s: Scanner, attrs: seq<Attribute>, p: Part) returns (s': Scanner)
    requires p.Pair? && Good(p) && ValueStarts(t, s, attrs) && attrs != []
    requires At(t, s.i, Written(p.value, p.quoting)) && s.i + |Written(p.value, p.quoting)| <= |t| - 1
    ensures s'.i == s.i + |Written(p.value, p.quoting)|
    ensures ReadUpTo(t, s', WithValue(attrs, p.value)) && Scan(t, s) == Scan(t, s')
  {
    hide Step, Scan, InPlace, ReadUpTo, At, ValueStarts, GoodName, GoodValue, GoodQuoted;
    match p.quoting {
      case Bare => s' := BareValue(t, s, attrs, p.value);
      case Double => s' := QuotedValue(t, s, attrs, p.value, '"');
      case Single => s' := QuotedValue(t, s, attrs, p.value, '\'');
    }
  }

  /** "name =" and nothing behind */
  lemma ReadEmpty(t: string, s: Scanner, attrs: seq<Attribute>, before: string) returns (s': Scanner)
    requires ReadUpTo(t, s, attrs) && s.v.V_ATT? && White(before) && before != ""
    requires At(t, s.i, before + "=") && s.i + |before| + 1 <= |t| - 1
    ensures s'.i == s.i + |before| + 1
    ensures attrs != [] && ReadUpTo(t, s', WithValue(attrs, "")) && Scan(t, s) == Scan(t, s')
  {
    hide Step, Scan;
    assert before + "=" == before + ("=" + "");
    s' := EnterPair(t, s, attrs, before, "");
    assert t[s'.p..s'.i] == "";
  }

  lemma Following(p: Part)
    requires Good(p) && !p.Comment?
    ensures GoodName(p.name) && (Rest(p) != "" ==> Rest(p)[0] != '-')
  {
    hide GoodQuoted, GoodValue;
    if p.Pair? || p.Empty? {
      assert Rest(p)[0] == if p.before == "" then '=' else p.before[0];
    }
  }

  /** One part, from where its name starts; what follows is no dash. */
  lemma ReadPart(t: string, s: Scanner, attrs: seq<Attribute>, p: Part) returns (s': Scanner)
    requires Between(t, s, attrs) && Good(p) && At(t, s.i, Body(p))
    requires s.i + |Body(p)| <= |t| - 1 && t[s.i + |Body(p)|] != '-'
    ensures s'.i == s.i + |Body(p)| && ReadUpTo(t, s', attrs + [Meaning(p)]) && Scan(t, s) == Scan(t, s')
  {
    hide Step, Scan, InPlace, GoodName, GoodValue, GoodQuoted, GoodComment, White, ReadUpTo, Between, Rest, At;
    if p.Comment? {
      s' := ReadComment(t, s, attrs, p.text);
    } else {
      Following(p);
      Peel(t, s.i, p.name, Rest(p));
      Bytes(t, s.i + |p.name|, Rest(p));
      assert Rest(p) != "" ==> t[s.i + |p.name| + 0] == Rest(p)[0];
      var named := EnterName(t, s, attrs, p.name);
      s' := ReadRest(t, named, attrs, p);
    }
  }

  lemma ReadRest(t: string, s: Scanner, attrs: seq<Attribute>, p: Part) returns (s': Scanner)
    requires Good(p) && !p.Comment? && s.v.V_ATT? && ReadUpTo(t, s, attrs + [Attribute(p.name, None)])
    requires At(t, s.i, Rest(p)) && s.i + |Rest(p)| <= |t| - 1
    ensures s'.i == s.i + |Rest(p)| && ReadUpTo(t, s', attrs + [Meaning(p)]) && Scan(t, s) == Scan(t, s')
  {
    hide Step, Scan, InPlace, GoodName, GoodValue, GoodQuoted, ReadUpTo, At, White;
    var bare := attrs + [Attribute(p.name, None)];
    if p.Pair? {
      s' := ReadValue(t, s, bare, p);
      assert WithValue(bare, p.value) == attrs + [Meaning(p)];
    } else if p.Empty? {
      s' := ReadEmpty(t, s, bare, p.before);
      assert WithValue(bare, "") == attrs + [Meaning(p)];
    } else {
      s' := s;
    }
  }

  /** The end of the tag */
  lemma LastPart(t: string, s: Scanner, attrs: seq<Attribute>, pad: string)
    requires ReadUpTo(t, s, attrs) && White(pad) && At(t, s.i, pad) && s.i + |pad| == |t| - 1
    ensures Finish(t, Scan(t, s)) == attrs
  {
    if pad != "" {
      var end := EndPart(t, s, attrs, pad);
      assert Scan(t, end) == end;
    } else {
      assert Scan(t, s) == s;
    }
  }

  /** What follows a part is white space or NUL. */
  lemma NoDash(t: string, a: nat, ps: seq<Part>, pad: string)
    requires GoodParts(ps) && (ps != [] ==> ps[0].sep != "") && White(pad)
    requires At(t, a, RenderParts(ps) + pad) && a + |RenderParts(ps) + pad| == |t| - 1 && t[|t| - 1] == NUL
    ensures t[a] != '-'
  {
    hide Body;
    Bytes(t, a, RenderParts(ps) + pad);
    if ps != [] {
      assert t[a] == (RenderParts(ps) + pad)[0] == ps[0].sep[0];
    } else if pad != "" {
      assert t[a] == pad[0];
    }
  }

  /** The parts still to come, after those that have been read */
  lemma {:induction false} ReadParts(t: string, s: Scanner, attrs: seq<Attribute>, ps: seq<Part>, pad: string)
    requires GoodParts(ps) && White(pad) && t != [] && t[|t| - 1] == NUL
    requires if ps == [] then ReadUpTo(t, s, attrs)
             else (if ps[0].sep == "" then Between(t, s, attrs) else ReadUpTo(t, s, attrs) || Between(t, s, attrs))
    requires At(t, s.i, RenderParts(ps) + pad) && s.i + |RenderParts(ps) + pad| == |t| - 1
    ensures Finish(t, Scan(t, s)) == attrs + Meanings(ps)
    decreases |ps|
  {
    hide RenderParts, Meanings, Meaning, Body, Good, White, At, Step, Scan, InPlace, ReadUpTo, Between, Finish;
    NoParts(attrs, pad);
    if ps == [] {
      LastPart(t, s, attrs, pad);
    } else {
      var p, rest := ps[0], ps[1..];
      assert Good(p) && White(p.sep) by {
        GoodSeparated(p);
      }
      PartFirst(t, s.i, ps, pad);
      var between := Separated(t, s, attrs, p.sep);
      var read := ReadPart(t, between, attrs, p);
      ReadParts(t, read, attrs + [Meaning(p)], rest, pad);
      MeaningFirst(attrs, ps);
    }
  }

  lemma PartFirst(t: string, a: nat, ps: seq<Part>, pad: string)
    requires ps != [] && GoodParts(ps) && White(pad)
    requires At(t, a, RenderParts(ps) + pad) && a + |RenderParts(ps) + pad| == |t| - 1 && t[|t| - 1] == NUL
    ensures var p, b := ps[0], a + |ps[0].sep|;
      && At(t, a, p.sep) && At(t, b, Body(p)) && At(t, b + |Body(p)|, RenderParts(ps[1..]) + pad)
      && b + |Body(p)| + |RenderParts(ps[1..]) + pad| == |t| - 1
      && t[b + |Body(p)|] != '-'
  {
    hide Body, Good, White, At;
    var p, rest := ps[0], ps[1..];
    PartsUnfold(ps, pad);
    Peel(t, a, p.sep, Body(p) + (RenderParts(rest) + pad));
    Peel(t, a + |p.sep|, Body(p), RenderParts(rest) + pad);
    NoDash(t, a + |p.sep| + |Body(p)|, rest, pad);
  }

  lemma PartsUnfold(ps: seq<Part>, pad: string)
    requires ps != []
    ensures RenderParts(ps) + pad == ps[0].sep + (Body(ps[0]) + (RenderParts(ps[1..]) + pad))
  {
    hide Body;
    var sep, body, rest := ps[0].sep, Body(ps[0]), RenderParts(ps[1..]);
    assert sep + (body + rest) + pad == sep + (body + (rest + pad));
  }

  lemma NoParts(attrs: seq<Attribute>, pad: string)
    ensures RenderParts([]) + pad == pad && attrs + Meanings([]) == attrs
  {
  }

  lemma MeaningFirst(attrs: seq<Attribute>, ps: seq<Part>)
    requires ps != []
    ensures attrs + [Meaning(ps[0])] + Meanings(ps[1..]) == attrs + Meanings(ps)
  {
    hide Meaning;
  }

  lemma GoodSeparated(p: Part)
    requires Good(p)
    ensures White(p.sep)
  {
  }

  lemma Separated(t: string, s: Scanner, attrs: seq<Attribute>, sep: string) returns (s': Scanner)
    requires White(sep) && At(t, s.i, sep) && s.i + |sep| <= |t| - 1
    requires if sep == "" then Between(t, s, attrs) else ReadUpTo(t, s, attrs) || Between(t, s, attrs)
    ensures Between(t, s', attrs) && s'.i == s.i + |sep| && Scan(t, s) == Scan(t, s')
  {
    if Between(t, s, attrs) {
      SkipWhite(t, s, sep);
      s' := s.(i := s.i + |sep|);
    } else {
      s' := EndPart(t, s, attrs, sep);
    }
  }

  /** However the attributes of a tag are written, they are read as they are meant, in order. */
  lemma ParseRendered(ps: seq<Part>, pad: string)
    requires GoodParts(ps) && ps != [] && White(pad)
    ensures Parse(RenderTag(ps, pad)) == Meanings(ps)
  {
    hide Body, Good, White, Step, Scan, ReadUpTo, Finish;
    var inner := RenderParts(ps) + pad;
    var tag := RenderTag(ps, pad);
    var t := Terminated(tag);
    assert tag[..|tag| - 1] == "<" + inner;
    assert t == ("<" + inner) + [NUL];
    assert t[1..1 + |inner|] == inner;
    ReadParts(t, START, [], ps, pad);
  }

  /** White space on both sides of '=' tears a pair apart: it is read as it is meant if and
      only if there is none on one of them. */
  lemma PairReadIff(name: string, p: Part, pad: string)
    requires GoodName(name) && White(pad) && p.Pair? && p.quoting.Bare?
    requires White(p.sep) && p.sep != "" && GoodName(p.name) && White(p.before) && White(p.after)
    requires GoodValue(p.value) && GoodName(p.value)
    ensures Parse(RenderTag([Name("", name), p], pad)) == [Attribute(name, None), Meaning(p)]
       <==> p.before == "" || p.after == ""
  {
    hide GoodName, GoodValue, White, Parse;
    var first := Name("", name);
    assert White("") by {
      NothingWhite();
    }
    if p.before == "" || p.after == "" {
      ParseRendered([first, p], pad);
      OnePart(p);
      assert [first, p][1..] == [p];
    } else {
      var torn := [first, Empty(p.sep, p.name, p.before), Name(p.after, p.value)];
      ParseRendered(torn, pad);
      assert RenderParts([p]) == RenderParts(torn[1..]) by {
        TornText(p);
      }
      assert Meanings(torn)[1] == Attribute(p.name, Some("")) && p.value != "" by {
        NotNothing(p.value);
      }
    }
  }

  lemma NothingWhite()
    ensures White("")
  {
  }

  lemma NotNothing(value: string)
    requires GoodValue(value)
    ensures value != ""
  {
  }

  lemma TornText(p: Part)
    requires p.Pair? && p.quoting.Bare?
    ensures RenderParts([p]) == RenderParts([Empty(p.sep, p.name, p.before), Name(p.after, p.value)])
  {
    hide Body;
    var second := Name(p.after, p.value);
    var torn := [Empty(p.sep, p.name, p.before), second];
    OnePart(p);
    OnePart(second);
    assert torn[1..] == [second];
    TornBody(p);
  }

  lemma TornBody(p: Part)
    requires p.Pair? && p.quoting.Bare?
    ensures Body(p) == Body(Empty(p.sep, p.name, p.before)) + (p.after + Body(Name(p.after, p.value)))
  {
    assert p.value + "" == p.value;
    assert p.name + (p.before + ("=" + (p.after + p.value))) == p.name + (p.before + "=") + (p.after + p.value);
  }

  lemma OnePart(p: Part)
    ensures RenderParts([p]) == p.sep + Body(p) && Meanings([p]) == [Meaning(p)]
  {
    hide Body, Meaning;
    assert Body(p) + "" == Body(p);
  }
}
