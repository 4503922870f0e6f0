/** What processTag0 reads out of a tag: a pure account of its scanner, over the tag's bytes
    (modelled as characters) with the final '>' overwritten by NUL. */
module TagSyntax {
  import opened Wrappers

  /** An attribute as handed to processTag: its name, and its value if there is one. */
  datatype Attribute = Attribute(name: string, value: Option<string>)

  const NUL: char := '\0'

  predicate IsSpace(c: char) {
    c == ' ' || c == '\t' || c == '\n' || c == '\r' || c == '\U{B}' || c == '\U{C}'
  }

  predicate IsQuote(c: char) {
    c == '\'' || c == '"'
  }

  /** vpos */
  datatype VPos = V_WSP | V_COMM | V_ATT | V_SVAL | V_VAL | V_DQUOT | V_SQUOT

  function QuotePos(c: char): VPos {
    if c == '"' then V_DQUOT else V_SQUOT
  }

  function QuoteChar(v: VPos): char {
    if v.V_DQUOT? then '"' else '\''
  }

  /** The scanner at position i; p is where the current name or value starts, v0 remembers
      the quotes seen in the current value. */
  datatype Scanner = Scanner(i: nat, v: VPos, v0: VPos, p: nat, attrs: seq<Attribute>)

  const START := Scanner(1, V_WSP, V_WSP, 1, [])

  predicate Quoted(s: Scanner) {
    s.v0.V_DQUOT? || s.v0.V_SQUOT?
  }

  /** Sane positions: what is being read starts behind '<' and not behind the scanner, and
      a value belongs to an attribute. */
  predicate InPlace(t: string, s: Scanner) {
    && 1 <= s.p <= s.i && 1 <= s.i
    && (s.v.V_ATT? ==> s.p < s.i <= |t| - 1)
    && (s.v.V_COMM? ==> s.p + 3 <= s.i <= |t| + 1 && s.p < |t| - 1)
    && (s.v.V_SVAL? || s.v.V_VAL? || s.v.V_DQUOT? || s.v.V_SQUOT? ==> s.attrs != [] && s.i <= |t| - 1)
    && (s.v.V_DQUOT? || s.v.V_SQUOT? ==> s.v0 == s.v && s.p < s.i)
    && (s.v.V_VAL? && Quoted(s) ==> s.p + 1 < s.i)
    && (s.v.V_WSP? ==> s.i <= |t| - 1 || s.i == 1)
    && (s.v.V_WSP? || s.v.V_ATT? || s.v.V_COMM? || s.v.V_SVAL? ==> s.v0.V_WSP?)
    && (s.v0.V_WSP? || s.v0.V_DQUOT? || s.v0.V_SQUOT?)
  }

  function WithValue(attrs: seq<Attribute>, value: string): seq<Attribute>
    requires attrs != []
  {
    attrs[..|attrs| - 1] + [attrs[|attrs| - 1].(value := Some(value))]
  }

  /** The end of a value at position e: a quoted one loses its first and last byte. */
  function EndValue(t: string, s: Scanner, e: nat): seq<Attribute>
    requires s.attrs != [] && s.p <= e <= |t| && (Quoted(s) ==> s.p + 1 < e)
  {
    WithValue(s.attrs, if Quoted(s) then t[s.p + 1..e - 1] else t[s.p..e])
  }

  function InValue(t: string, s: Scanner): (s': Scanner)
    requires InPlace(t, s) && s.i < |t| - 1 && s.v.V_VAL?
    ensures InPlace(t, s') && s'.i == s.i + 1
  {
    if IsSpace(t[s.i]) then Scanner(s.i + 1, V_WSP, V_WSP, s.p, EndValue(t, s, s.i))
    else if IsQuote(t[s.i]) then s.(i := s.i + 1, v := QuotePos(t[s.i]), v0 := QuotePos(t[s.i]))
    else s.(i := s.i + 1)
  }

  /** One turn of the scanning loop. */
  function Step(t: string, s: Scanner): (s': Scanner)
    requires InPlace(t, s) && s.i < |t| - 1
    ensures InPlace(t, s') && s'.i > s.i
  {
    var c := t[s.i];
    match s.v
    case V_WSP =>
      if IsSpace(c) then s.(i := s.i + 1)
      else if c == '=' && s.attrs != [] then s.(i := s.i + 1, v := V_VAL, p := s.i + 1)
      else if c == '-' && t[s.i + 1] == '-' then s.(i := s.i + 3, v := V_COMM, p := s.i)
      else s.(i := s.i + 1, v := V_ATT, p := s.i)
    case V_ATT =>
      if IsSpace(c) then s.(i := s.i + 1, v := V_WSP, attrs := s.attrs + [Attribute(t[s.p..s.i], None)])
      else if c == '=' then
        s.(i := s.i + 1, v := V_SVAL, p := s.i + 1, attrs := s.attrs + [Attribute(t[s.p..s.i], None)])
      else s.(i := s.i + 1)
    case V_SVAL =>
      if IsSpace(c) then s.(i := s.i + 1) else InValue(t, s.(v := V_VAL, p := s.i))
    case V_VAL => InValue(t, s)
    case V_COMM =>
      if s.i > 2 && IsSpace(c) && t[s.i - 1] == '-' && t[s.i - 2] == '-' then
        s.(i := s.i + 1, v := V_WSP, attrs := s.attrs + [Attribute(t[s.p..s.i], None)])
      else s.(i := s.i + 1)
    case _ =>
      if c == QuoteChar(s.v) && t[s.i - 1] != '\\' then s.(i := s.i + 1, v := V_VAL) else s.(i := s.i + 1)
  }

  function Scan(t: string, s: Scanner): (s': Scanner)
    requires InPlace(t, s)
    ensures InPlace(t, s') && s'.i >= |t| - 1
    decreases |t| + 1 - s.i
  {
    if s.i >= |t| - 1 then s else Scan(t, Step(t, s))
  }

  /** What is still being read at the end of the tag. */
  function Finish(t: string, s: Scanner): seq<Attribute>
    requires t != [] && InPlace(t, s) && s.i >= |t| - 1
  {
    if s.v.V_ATT? || s.v.V_COMM? then s.attrs + [Attribute(t[s.p..|t| - 1], None)]
    else if s.v.V_VAL? then EndValue(t, s, |t| - 1)
    else s.attrs
  }

  /** The tag as scanned: its last byte reads as NUL. */
  function Terminated(tag: string): (t: string)
    requires tag != []
    ensures |t| == |tag|
  {
    tag[..|tag| - 1] + [NUL]
  }

  function Parse(tag: string): seq<Attribute>
    requires tag != []
  {
    var t := Terminated(tag);
    Finish(t, Scan(t, START))
  }
}
