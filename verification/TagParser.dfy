/** processTag0 up to its callback: the scratch copy is cut in place with NUL bytes and the
    attribute and value pointers index into it. The pointers denote exactly the slices that
    TagSyntax.Parse describes, in spite of the cutting. */
module TagParser {
  import opened TagSyntax
  import opened Wrappers

  /** A null pointer; other pointers are positions in the scratch buffer. */
  const NULL: int := -1

  /** The C string at position p. */
  function CString(a: seq<char>, p: nat): string
    requires p <= |a|
    decreases |a| - p
  {
    if p == |a| || a[p] == NUL then "" else [a[p]] + CString(a, p + 1)
  }

  lemma {:induction false} CStringIs(a: seq<char>, p: nat, e: nat)
    requires p <= e < |a| && a[e] == NUL && NUL !in a[p..e]
    ensures CString(a, p) == a[p..e]
    decreases e - p
  {
    if p < e {
      assert a[p..e][0] == a[p];
      assert a[p..e] == [a[p]] + a[p + 1..e];
      assert forall k :: p + 1 <= k < e ==> a[k] == a[p..e][k - p];
      CStringIs(a, p + 1, e);
    }
  }

  /** The C string at `ptr` is `text`: a NUL-terminated slice of the buffer below `limit`. */
  ghost predicate Denotes(a: seq<char>, ptr: int, text: string, limit: nat) {
    && 0 <= ptr && ptr + |text| < limit <= |a|
    && a[ptr..ptr + |text|] == text && a[ptr + |text|] == NUL && NUL !in text
  }

  lemma DenotesCString(a: seq<char>, ptr: int, text: string, limit: nat)
    requires Denotes(a, ptr, text, limit)
    ensures CString(a, ptr) == text
  {
    CStringIs(a, ptr, ptr + |text|);
  }

  /** Changing the buffer at or above the limit does not matter. */
  lemma DenotesKept(a: seq<char>, b: seq<char>, ptr: int, text: string, limit: nat, limit': nat)
    requires Denotes(a, ptr, text, limit) && limit <= limit' <= |a| == |b|
    requires a[..limit] == b[..limit]
    ensures Denotes(b, ptr, text, limit')
  {
    assert forall k :: 0 <= k < limit ==> a[k] == a[..limit][k] == b[..limit][k] == b[k];
  }

  /** The first |attrs| name pointers, and the value pointers `half` places behind them,
      denote `attrs`. */
  ghost predicate Recorded(a: seq<char>, ptrs: seq<int>, half: nat, attrs: seq<Attribute>, limit: nat) {
    && |attrs| <= half && half + |attrs| <= |ptrs|
    && (forall k :: 0 <= k < |attrs| ==> Denotes(a, ptrs[k], attrs[k].name, limit))
    && (forall k, j :: 0 <= k < |attrs| && j == half + k ==> ValueDenoted(a, ptrs[j], attrs[k].value, limit))
    && forall j :: half + |attrs| <= j < |ptrs| ==> ptrs[j] == NULL
  }

  ghost predicate ValueDenoted(a: seq<char>, ptr: int, value: Option<string>, limit: nat) {
    match value
    case None => ptr == NULL
    case Some(text) => Denotes(a, ptr, text, limit)
  }

  lemma RecordedKept(a: seq<char>, b: seq<char>, ptrs: seq<int>, half: nat, attrs: seq<Attribute>, limit: nat, limit': nat)
    requires Recorded(a, ptrs, half, attrs, limit) && limit <= limit' <= |a| == |b|
    requires a[..limit] == b[..limit]
    ensures Recorded(b, ptrs, half, attrs, limit')
  {
    forall k | 0 <= k < |attrs| ensures Denotes(b, ptrs[k], attrs[k].name, limit') {
      DenotesKept(a, b, ptrs[k], attrs[k].name, limit, limit');
    }
    forall k, j | 0 <= k < |attrs| && j == half + k ensures ValueDenoted(b, ptrs[j], attrs[k].value, limit') {
      if attrs[k].value.Some? {
        DenotesKept(a, b, ptrs[j], attrs[k].value.value, limit, limit');
      }
    }
  }

  /** atts[n++] = p */
  lemma NameRecorded(a: seq<char>, ptrs: seq<int>, half: nat, attrs: seq<Attribute>, limit: nat, p: nat, text: string)
    requires Recorded(a, ptrs, half, attrs, limit) && Denotes(a, p, text, limit)
    requires |attrs| < half && half + |attrs| < |ptrs|
    ensures Recorded(a, ptrs[|attrs| := p], half, attrs + [Attribute(text, None)], limit)
  {
  }

  /** vals[n-1] = p */
  lemma ValueRecorded(a: seq<char>, ptrs: seq<int>, half: nat, attrs: seq<Attribute>, limit: nat, p: nat, text: string)
    requires Recorded(a, ptrs, half, attrs, limit) && Denotes(a, p, text, limit) && attrs != []
    ensures Recorded(a, ptrs[half + |attrs| - 1 := p], half, WithValue(attrs, text), limit)
  {
    var attrs', ptrs' := WithValue(attrs, text), ptrs[half + |attrs| - 1 := p];
    forall k | 0 <= k < |attrs'| ensures Denotes(a, ptrs'[k], attrs'[k].name, limit) {
      assert attrs'[k].name == attrs[k].name;
    }
  }

  /** All of the tag but its last byte is free of NUL, and above `limit` the buffer is uncut. */
  ghost predicate Uncut(t: string, a: seq<char>, limit: nat) {
    && limit <= |a| == |t| && 0 < |t| && t[|t| - 1] == NUL
    && NUL !in t[..|t| - 1]
    && a[limit..] == t[limit..]
  }

  lemma UncutAt(t: string, a: seq<char>, limit: nat, k: nat)
    requires Uncut(t, a, limit) && limit <= k < |t|
    ensures a[k] == t[k]
  {
    assert a[k] == a[limit..][k - limit] == t[limit..][k - limit];
  }

  /** A slice between the limit and its cut denotes the tag's text. */
  lemma SliceDenoted(t: string, a: seq<char>, limit: nat, p: nat, e: nat, limit': nat)
    requires Uncut(t, a, limit) && limit <= p <= e < limit' <= |t|
    ensures Denotes(a[e := NUL], p, t[p..e], limit')
  {
    var b := a[e := NUL];
    forall k | p <= k < e ensures b[k] == t[k] && t[k] != NUL {
      UncutAt(t, a, limit, k);
      assert t[k] == t[..|t| - 1][k];
    }
    assert b[p..e] == t[p..e];
    forall k | 0 <= k < e - p ensures t[p..e][k] != NUL {
      assert t[p..e][k] == t[p + k];
    }
  }

  lemma UncutAbove(t: string, a: seq<char>, limit: nat, e: nat, limit': nat)
    requires Uncut(t, a, limit) && limit <= limit' <= |t| && e < limit'
    ensures Uncut(t, a[e := NUL], limit')
  {
    forall k | limit' <= k < |t| ensures a[e := NUL][k] == t[k] {
      UncutAt(t, a, limit, k);
    }
  }

  /** Ending a name at position e. */
  lemma CutName(t: string, a: seq<char>, ptrs: seq<int>, half: nat, attrs: seq<Attribute>, p: nat, e: nat)
    requires Uncut(t, a, p) && p < e < |t|
    requires Recorded(a, ptrs, half, attrs, p) && |attrs| < half && half + |attrs| < |ptrs|
    ensures Recorded(a[e := NUL], ptrs[|attrs| := p], half, attrs + [Attribute(t[p..e], None)], e + 1)
    ensures Uncut(t, a[e := NUL], e + 1)
  {
    SliceDenoted(t, a, p, p, e, e + 1);
    UncutAbove(t, a, p, e, e + 1);
    RecordedKept(a, a[e := NUL], ptrs, half, attrs, p, e + 1);
    NameRecorded(a[e := NUL], ptrs, half, attrs, e + 1, p, t[p..e]);
  }

  /** Ending a value that starts at `start` with a cut at position e; p is where the scanner
      began reading it. */
  lemma CutValue(t: string, a: seq<char>, ptrs: seq<int>, half: nat, attrs: seq<Attribute>,
                 p: nat, start: nat, e: nat, limit: nat)
    requires Uncut(t, a, p) && p <= start <= e < limit <= |t|
    requires Recorded(a, ptrs, half, attrs, p) && attrs != []
    ensures Recorded(a[e := NUL], ptrs[half + |attrs| - 1 := start], half, WithValue(attrs, t[start..e]), limit)
    ensures Uncut(t, a[e := NUL], limit)
  {
    SliceDenoted(t, a, p, start, e, limit);
    UncutAbove(t, a, p, e, limit);
    RecordedKept(a, a[e := NUL], ptrs, half, attrs, p, limit);
    ValueRecorded(a[e := NUL], ptrs, half, attrs, limit, start, t[start..e]);
  }

  /** The lowest position that may still be read or cut. */
  function Limit(s: Scanner): nat {
    if s.v.V_WSP? then s.i else s.p
  }

  /** The buffers agree with the pure scanner, and there is room for what may come. */
  ghost predicate Agrees(tag: string, a: seq<char>, ptrs: seq<int>, s: Scanner)
    requires tag != []
  {
    var t := Terminated(tag);
    && InPlace(t, s) && |ptrs| == |t|
    && Limit(s) <= |t|
    && Uncut(t, a, Limit(s))
    && Recorded(a, ptrs, |t| / 2, s.attrs, Limit(s))
    && 2 * |s.attrs| <= Limit(s) - 1
    && Scan(t, s) == Scan(t, START)
  }

  /** Positions skipped as white space are not cut. */
  lemma RecordedLater(t: string, a: seq<char>, ptrs: seq<int>, half: nat, attrs: seq<Attribute>, limit: nat, limit': nat)
    requires Uncut(t, a, limit) && Recorded(a, ptrs, half, attrs, limit) && limit <= limit' <= |t|
    ensures Uncut(t, a, limit') && Recorded(a, ptrs, half, attrs, limit')
  {
    RecordedKept(a, a, ptrs, half, attrs, limit, limit');
    forall k | limit' <= k < |t| ensures a[k] == t[k] {
      UncutAt(t, a, limit, k);
    }
  }

  /** Does this turn end a name, or a value? */
  predicate EndsName(t: string, s: Scanner)
    requires InPlace(t, s) && s.i < |t| - 1
  {
    var c := t[s.i];
    || (s.v.V_ATT? && (IsSpace(c) || c == '='))
    || (s.v.V_COMM? && s.i > 2 && IsSpace(c) && t[s.i - 1] == '-' && t[s.i - 2] == '-')
  }

  predicate EndsValue(t: string, s: Scanner)
    requires InPlace(t, s) && s.i < |t| - 1
  {
    s.v.V_VAL? && IsSpace(t[s.i])
  }

  /** What one turn does to the scratch buffer and to the pointers. */
  ghost function Cut(t: string, s: Scanner, a: seq<char>): seq<char>
    requires InPlace(t, s) && s.i < |t| - 1 && |a| == |t|
  {
    if EndsName(t, s) then a[s.i := NUL]
    else if EndsValue(t, s) then a[(if Quoted(s) then s.i - 1 else s.i) := NUL]
    else a
  }

  ghost function Point(t: string, s: Scanner, ptrs: seq<int>): seq<int>
    requires InPlace(t, s) && s.i < |t| - 1
  {
    var half := |t| / 2;
    if EndsName(t, s) && |s.attrs| < |ptrs| then ptrs[|s.attrs| := s.p]
    else if EndsValue(t, s) && half + |s.attrs| - 1 < |ptrs| then
      ptrs[half + |s.attrs| - 1 := if Quoted(s) then s.p + 1 else s.p]
    else ptrs
  }

  lemma RoomForName(tag: string, a: seq<char>, ptrs: seq<int>, s: Scanner)
    requires tag != [] && Agrees(tag, a, ptrs, s) && s.p < |tag| - 1 && Limit(s) == s.p
    ensures |s.attrs| < |tag| / 2 && |tag| / 2 + |s.attrs| < |tag|
  {
  }

  lemma StepFacts(t: string, s: Scanner)
    requires InPlace(t, s) && s.i < |t| - 1
    ensures Scan(t, s) == Scan(t, Step(t, s))
    ensures Limit(s) <= s.i && Limit(s) <= Limit(Step(t, s)) <= |t|
    ensures EndsName(t, s) ==>
      && Limit(s) == s.p < s.i && Limit(Step(t, s)) == s.i + 1
      && Step(t, s).attrs == s.attrs + [Attribute(t[s.p..s.i], None)]
    ensures EndsValue(t, s) ==>
      && s.attrs != [] && Limit(s) == s.p <= s.i && Limit(Step(t, s)) == s.i + 1
      && (Quoted(s) ==> s.p + 1 < s.i)
      && Step(t, s).attrs == EndValue(t, s, s.i)
    ensures !EndsName(t, s) && !EndsValue(t, s) ==> Step(t, s).attrs == s.attrs
  {
    hide WithValue, EndValue, Step, Limit, Quoted, InPlace, EndsName, EndsValue;
    StepKeepsLimit(t, s);
    StepName(t, s);
    StepValue(t, s);
  }

  lemma StepKeepsLimit(t: string, s: Scanner)
    requires InPlace(t, s) && s.i < |t| - 1
    ensures Limit(s) <= s.i && Limit(s) <= Limit(Step(t, s)) <= |t|
  {
    hide WithValue, EndValue, Scan;
  }

  lemma StepName(t: string, s: Scanner)
    requires InPlace(t, s) && s.i < |t| - 1
    ensures EndsName(t, s) ==>
      && Limit(s) == s.p < s.i && Limit(Step(t, s)) == s.i + 1
      && Step(t, s).attrs == s.attrs + [Attribute(t[s.p..s.i], None)]
    ensures !EndsName(t, s) && !EndsValue(t, s) ==> Step(t, s).attrs == s.attrs
  {
    hide WithValue, EndValue, Scan;
  }

  lemma StepValue(t: string, s: Scanner)
    requires InPlace(t, s) && s.i < |t| - 1
    ensures EndsValue(t, s) ==>
      && s.attrs != [] && Limit(s) == s.p <= s.i && Limit(Step(t, s)) == s.i + 1
      && (Quoted(s) ==> s.p + 1 < s.i)
      && Step(t, s).attrs == EndValue(t, s, s.i)
  {
    hide WithValue, Scan;
  }

  lemma TurnName(tag: string, a: seq<char>, ptrs: seq<int>, s: Scanner)
    requires tag != [] && Agrees(tag, a, ptrs, s) && s.i < |tag| - 1
    requires EndsName(Terminated(tag), s)
    ensures Agrees(tag, Cut(Terminated(tag), s, a), Point(Terminated(tag), s, ptrs), Step(Terminated(tag), s))
  {
    hide InPlace, Recorded, Uncut, Terminated, Step, Scan, Limit, EndsName, EndsValue, WithValue;
    AgreesInPlace(tag, a, ptrs, s);
    var t := Terminated(tag);
    var half := |t| / 2;
    StepFacts(t, s);
    RoomForName(tag, a, ptrs, s);
    CutName(t, a, ptrs, half, s.attrs, s.p, s.i);
  }

  lemma TurnPlainValue(tag: string, a: seq<char>, ptrs: seq<int>, s: Scanner)
    requires tag != [] && Agrees(tag, a, ptrs, s) && s.i < |tag| - 1
    requires EndsValue(Terminated(tag), s) && !Quoted(s)
    ensures Agrees(tag, Cut(Terminated(tag), s, a), Point(Terminated(tag), s, ptrs), Step(Terminated(tag), s))
  {
    hide *;
    AgreesInPlace(tag, a, ptrs, s);
    var value := PlainText(tag, a, ptrs, s);
    var t := Terminated(tag);
    var half := |t| / 2;
    CutValue(t, a, ptrs, half, s.attrs, s.p, s.p, s.i, s.i + 1);
    Assemble(tag, a[s.i := NUL], ptrs[half + |s.attrs| - 1 := s.p], Step(t, s));
  }

  /** The facts of a turn that ends an unquoted value. */
  lemma PlainText(tag: string, a: seq<char>, ptrs: seq<int>, s: Scanner) returns (value: string)
    requires tag != [] && Agrees(tag, a, ptrs, s) && s.i < |tag| - 1
    requires EndsValue(Terminated(tag), s) && !Quoted(s)
    ensures var t := Terminated(tag);
      var half, s' := |t| / 2, Step(t, s);
      && s.attrs != [] && 0 <= s.p <= s.p <= s.i < s.i + 1 && value == t[s.p..s.i]
      && Uncut(t, a, s.p) && Recorded(a, ptrs, half, s.attrs, s.p)
      && |a| == |ptrs| == |t| && half + |s.attrs| - 1 < |ptrs|
      && Cut(t, s, a) == a[s.i := NUL] && Point(t, s, ptrs) == ptrs[half + |s.attrs| - 1 := s.p]
      && s'.attrs == WithValue(s.attrs, value) && Limit(s') == s.i + 1
      && InPlace(t, s') && Scan(t, s') == Scan(t, START)
      && 2 * |WithValue(s.attrs, value)| <= s.i
  {
    hide Recorded, Uncut, Step, Scan, Limit, Terminated, InPlace;
    AgreesInPlace(tag, a, ptrs, s);
    var t := Terminated(tag);
    StepFacts(t, s);
    NotBoth(t, s);
    value := t[s.p..s.i];
    assert s.p == Limit(s) && EndValue(t, s, s.i) == WithValue(s.attrs, value);
  }

  lemma TurnQuotedValue(tag: string, a: seq<char>, ptrs: seq<int>, s: Scanner)
    requires tag != [] && Agrees(tag, a, ptrs, s) && s.i < |tag| - 1
    requires EndsValue(Terminated(tag), s) && Quoted(s)
    ensures Agrees(tag, Cut(Terminated(tag), s, a), Point(Terminated(tag), s, ptrs), Step(Terminated(tag), s))
  {
    hide *;
    AgreesInPlace(tag, a, ptrs, s);
    var value := QuotedText(tag, a, ptrs, s);
    var t := Terminated(tag);
    var half := |t| / 2;
    CutValue(t, a, ptrs, half, s.attrs, s.p, s.p + 1, s.i - 1, s.i + 1);
    Assemble(tag, a[s.i - 1 := NUL], ptrs[half + |s.attrs| - 1 := s.p + 1], Step(t, s));
  }

  /** The facts of a turn that ends a quoted value. */
  lemma QuotedText(tag: string, a: seq<char>, ptrs: seq<int>, s: Scanner) returns (value: string)
    requires tag != [] && Agrees(tag, a, ptrs, s) && s.i < |tag| - 1
    requires EndsValue(Terminated(tag), s) && Quoted(s)
    ensures var t := Terminated(tag);
      var half, s' := |t| / 2, Step(t, s);
      && s.attrs != [] && 0 <= s.p <= s.p + 1 <= s.i - 1 < s.i + 1 && value == t[s.p + 1..s.i - 1]
      && Uncut(t, a, s.p) && Recorded(a, ptrs, half, s.attrs, s.p)
      && |a| == |ptrs| == |t| && half + |s.attrs| - 1 < |ptrs|
      && Cut(t, s, a) == a[s.i - 1 := NUL] && Point(t, s, ptrs) == ptrs[half + |s.attrs| - 1 := s.p + 1]
      && s'.attrs == WithValue(s.attrs, value) && Limit(s') == s.i + 1
      && InPlace(t, s') && Scan(t, s') == Scan(t, START)
      && 2 * |WithValue(s.attrs, value)| <= s.i
  {
    hide Recorded, Uncut, Step, Scan, Limit, Terminated, InPlace;
    AgreesInPlace(tag, a, ptrs, s);
    var t := Terminated(tag);
    StepFacts(t, s);
    NotBoth(t, s);
    value := t[s.p + 1..s.i - 1];
    assert s.p == Limit(s) && EndValue(t, s, s.i) == WithValue(s.attrs, value);
  }

  lemma Assemble(tag: string, a: seq<char>, ptrs: seq<int>, s: Scanner)
    requires tag != []
    requires var t := Terminated(tag);
      && InPlace(t, s) && |ptrs| == |t| && Limit(s) <= |t|
      && Uncut(t, a, Limit(s)) && Recorded(a, ptrs, |t| / 2, s.attrs, Limit(s))
      && 2 * |s.attrs| <= Limit(s) - 1 && Scan(t, s) == Scan(t, START)
    ensures Agrees(tag, a, ptrs, s)
  {
  }

  lemma TurnOther(tag: string, a: seq<char>, ptrs: seq<int>, s: Scanner)
    requires tag != [] && Agrees(tag, a, ptrs, s) && s.i < |tag| - 1
    requires !EndsName(Terminated(tag), s) && !EndsValue(Terminated(tag), s)
    ensures Agrees(tag, Cut(Terminated(tag), s, a), Point(Terminated(tag), s, ptrs), Step(Terminated(tag), s))
  {
    hide InPlace, Recorded, Uncut, Terminated, Step, Scan, Limit, EndsName, EndsValue, WithValue;
    AgreesInPlace(tag, a, ptrs, s);
    var t := Terminated(tag);
    var half := |t| / 2;
    StepFacts(t, s);
    RecordedLater(t, a, ptrs, half, s.attrs, Limit(s), Limit(Step(t, s)));
  }

  lemma NotBoth(t: string, s: Scanner)
    requires InPlace(t, s) && s.i < |t| - 1 && EndsValue(t, s)
    ensures !EndsName(t, s)
  {
  }

  /** One turn keeps buffers and scanner in agreement. */
  lemma TurnAgrees(tag: string, a: seq<char>, ptrs: seq<int>, s: Scanner)
    requires tag != [] && Agrees(tag, a, ptrs, s) && s.i < |tag| - 1
    ensures Agrees(tag, Cut(Terminated(tag), s, a), Point(Terminated(tag), s, ptrs), Step(Terminated(tag), s))
  {
    hide Agrees, Terminated, Cut, Point, Step, EndsName, EndsValue;
    AgreesInPlace(tag, a, ptrs, s);
    if EndsName(Terminated(tag), s) {
      TurnName(tag, a, ptrs, s);
    } else if EndsValue(Terminated(tag), s) {
      if Quoted(s) {
        TurnQuotedValue(tag, a, ptrs, s);
      } else {
        TurnPlainValue(tag, a, ptrs, s);
      }
    } else {
      TurnOther(tag, a, ptrs, s);
    }
  }

  lemma AgreesInPlace(tag: string, a: seq<char>, ptrs: seq<int>, s: Scanner)
    requires tag != [] && Agrees(tag, a, ptrs, s)
    ensures InPlace(Terminated(tag), s) && |a| == |ptrs| == |tag| && 2 * |s.attrs| <= |tag|
  {
  }

  lemma WithValueLength(attrs: seq<Attribute>, value: string)
    requires attrs != []
    ensures |WithValue(attrs, value)| == |attrs|
  {
  }

  /** A byte at or above the limit is read as it was in the tag. */
  lemma ReadsTag(tag: string, a: seq<char>, ptrs: seq<int>, s: Scanner, k: nat)
    requires tag != [] && Agrees(tag, a, ptrs, s) && Limit(s) <= k < |tag|
    ensures a[k] == Terminated(tag)[k]
  {
    UncutAt(Terminated(tag), a, Limit(s), k);
  }

  /** After the loop: the last name or value is ended, and everything is recorded. */
  lemma FinishRecorded(tag: string, a: seq<char>, ptrs: seq<int>, s: Scanner)
    requires tag != [] && Agrees(tag, a, ptrs, s) && s.i >= |tag| - 1
    ensures |ptrs| == |tag| == |a| && 2 * |s.attrs| <= |tag|
    ensures (s.v.V_ATT? || s.v.V_COMM?) ==>
      && |s.attrs| < |tag| / 2
      && Recorded(a, ptrs[|s.attrs| := s.p], |tag| / 2, Parse(tag), |tag|)
      && |Parse(tag)| == |s.attrs| + 1
    ensures s.v.V_VAL? ==>
      && s.attrs != [] && 1 <= s.i == |tag| - 1
      && |Parse(tag)| == |s.attrs| && |tag| / 2 + |s.attrs| - 1 < |tag|
      && if Quoted(s)
         then Recorded(a[s.i - 1 := NUL], ptrs[|tag| / 2 + |s.attrs| - 1 := s.p + 1], |tag| / 2, Parse(tag), |tag|)
         else Recorded(a, ptrs[|tag| / 2 + |s.attrs| - 1 := s.p], |tag| / 2, Parse(tag), |tag|)
    ensures !(s.v.V_ATT? || s.v.V_COMM? || s.v.V_VAL?) ==>
      Parse(tag) == s.attrs && Recorded(a, ptrs, |tag| / 2, Parse(tag), |tag|)
  {
    hide Recorded, Scan, WithValue;
    var t := Terminated(tag);
    var half, last := |t| / 2, |t| - 1;
    assert Scan(t, s) == s by { ScanDone(t, s); }
    assert Parse(tag) == Finish(t, s);
    if s.v.V_ATT? || s.v.V_COMM? {
      UncutAt(t, a, s.p, last);
      assert a[last := NUL] == a;
      CutName(t, a, ptrs, half, s.attrs, s.p, last);
    } else if s.v.V_VAL? {
      UncutAt(t, a, s.p, last);
      assert a[last := NUL] == a;
      if Quoted(s) {
        WithValueLength(s.attrs, t[s.p + 1..last - 1]);
        CutValue(t, a, ptrs, half, s.attrs, s.p, s.p + 1, last - 1, |t|);
      } else {
        WithValueLength(s.attrs, t[s.p..last]);
        CutValue(t, a, ptrs, half, s.attrs, s.p, s.p, last, |t|);
      }
    } else {
      RecordedLater(t, a, ptrs, half, s.attrs, Limit(s), |t|);
    }
  }

  lemma ScanDone(t: string, s: Scanner)
    requires InPlace(t, s) && s.i >= |t| - 1
    ensures Scan(t, s) == s
  {
  }

  /** The switch in the scanning loop, one turn. */
  method Turn(tag: string, scratch: array<char>, ptrs: array<int>, i: nat, v: VPos, v0: VPos, p: nat, n: nat, ghost s: Scanner)
    returns (i': nat, v': VPos, v0': VPos, p': nat, n': nat, ghost s': Scanner)
    requires tag != [] && scratch.Length == ptrs.Length == |tag| && i < |tag| - 1
    requires Agrees(tag, scratch[..], ptrs[..], s)
    requires i == s.i && v == s.v && v0 == s.v0 && n == |s.attrs| && (v.V_WSP? || p == s.p)
    modifies scratch, ptrs
    ensures Agrees(tag, scratch[..], ptrs[..], s')
    ensures i' == s'.i > i && v' == s'.v && v0' == s'.v0 && n' == |s'.attrs| && (v'.V_WSP? || p' == s'.p)
  {
    hide Agrees, Recorded, Uncut, Scan, Terminated;
    ghost var a, q: seq<int> := scratch[..], ptrs[..];
    AgreesInPlace(tag, a, q, s);
    ghost var t: string := Terminated(tag);
    TurnAgrees(tag, a, q, s);
    Readable(tag, a, q, s);
    StepFacts(t, s);
    s' := Step(t, s);
    var vals := |tag| / 2;
    var c := scratch[i];
    i', v', v0', p', n' := i + 1, v, v0, p, n;
    match v {
      case V_WSP =>
        if !IsSpace(c) {
          p' := i;
          if c == '=' && n > 0 {
            p', v' := i + 1, V_VAL;
          } else if c == '-' && scratch[i + 1] == '-' {
            v', i' := V_COMM, i + 3;
          } else {
            v' := V_ATT;
          }
        }
      case V_ATT =>
        if IsSpace(c) || c == '=' {
          RoomForName(tag, a, q, s);
          scratch[i] := NUL;
          ptrs[n], n' := p, n + 1;
          if c == '=' {
            p', v' := i + 1, V_SVAL;
          } else {
            v' := V_WSP;
          }
        }
      case V_SVAL =>
        if !IsSpace(c) {
          p', v' := i, V_VAL;
          if IsQuote(c) {
            v0', v' := QuotePos(c), QuotePos(c);
          }
        }
      case V_VAL =>
        if IsSpace(c) {
          if v0 == V_DQUOT || v0 == V_SQUOT {
            scratch[i - 1] := NUL;
            ptrs[vals + n - 1] := p + 1;
          } else {
            scratch[i] := NUL;
            ptrs[vals + n - 1] := p;
          }
          v0', v' := V_WSP, V_WSP;
        } else if IsQuote(c) {
          v0', v' := QuotePos(c), QuotePos(c);
        }
      case V_COMM =>
        if i > 2 && IsSpace(c) && scratch[i - 1] == '-' && scratch[i - 2] == '-' {
          RoomForName(tag, a, q, s);
          scratch[i] := NUL;
          ptrs[n], n', v' := p, n + 1, V_WSP;
        }
      case _ =>
        if c == QuoteChar(v) && scratch[i - 1] != '\\' {
          v' := V_VAL;
        }
    }
    assert scratch[..] == Cut(t, s, a);
    assert ptrs[..] == Point(t, s, q);
  }

  /** The bytes a turn looks at have not been cut. */
  lemma Readable(tag: string, a: seq<char>, ptrs: seq<int>, s: Scanner)
    requires tag != [] && Agrees(tag, a, ptrs, s) && s.i < |tag| - 1
    ensures var t := Terminated(tag);
      && a[s.i] == t[s.i] && a[s.i + 1] == t[s.i + 1]
      && (s.v.V_DQUOT? || s.v.V_SQUOT? ==> a[s.i - 1] == t[s.i - 1])
      && (s.v.V_COMM? ==> a[s.i - 1] == t[s.i - 1] && a[s.i - 2] == t[s.i - 2])
  {
    hide Recorded, Uncut, Scan;
    ReadsTag(tag, a, ptrs, s, s.i);
    ReadsTag(tag, a, ptrs, s, s.i + 1);
    if s.v.V_DQUOT? || s.v.V_SQUOT? || s.v.V_COMM? {
      ReadsTag(tag, a, ptrs, s, s.i - 1);
    }
    if s.v.V_COMM? {
      ReadsTag(tag, a, ptrs, s, s.i - 2);
    }
  }

  /** processTag0 up to its callback: `n` attributes; name pointers in the first half of
      `ptrs`, value pointers in the second. */
  method ParseTag(tag: string) returns (n: nat, scratch: array<char>, ptrs: array<int>)
    requires tag != [] && tag[0] == '<' && NUL !in tag[..|tag| - 1]
    ensures scratch.Length == ptrs.Length == |tag| && n == |Parse(tag)| <= |tag| / 2
    ensures Recorded(scratch[..], ptrs[..], |tag| / 2, Parse(tag), |tag|)
  {
    hide Agrees, Recorded, Parse, Terminated;
    var size := |tag|;
    scratch := new char[size](k requires 0 <= k < size => tag[k]);
    ptrs := new int[size](_ => NULL);
    var vals := size / 2;
    assert scratch[..] == tag;
    scratch[size - 1] := NUL;
    ghost var s := START;
    StartAgrees(tag, scratch[..], ptrs[..]);
    var i: nat, p: nat, v, v0 := 1, 1, V_WSP, V_WSP;
    n := 0;
    while i < size - 1
      invariant Agrees(tag, scratch[..], ptrs[..], s)
      invariant i == s.i && v == s.v && v0 == s.v0 && n == |s.attrs| && (v.V_WSP? || p == s.p)
      decreases size + 1 - i
    {
      i, v, v0, p, n, s := Turn(tag, scratch, ptrs, i, v, v0, p, n, s);
    }
    ghost var a, q: seq<int> := scratch[..], ptrs[..];
    FinishRecorded(tag, a, q, s);
    if v == V_ATT || v == V_COMM {
      ptrs[n] := p;
      assert ptrs[..] == q[n := p] && scratch[..] == a;
      n := n + 1;
    } else if v == V_VAL {
      if v0 == V_DQUOT || v0 == V_SQUOT {
        scratch[i - 1] := NUL;
        ptrs[vals + n - 1] := p + 1;
        assert ptrs[..] == q[vals + n - 1 := p + 1] && scratch[..] == a[i - 1 := NUL];
      } else {
        ptrs[vals + n - 1] := p;
        assert ptrs[..] == q[vals + n - 1 := p] && scratch[..] == a;
      }
    }
  }

  lemma StartAgrees(tag: string, a: seq<char>, ptrs: seq<int>)
    requires tag != [] && NUL !in tag[..|tag| - 1]
    requires a == tag[|tag| - 1 := NUL] && |ptrs| == |tag| && forall k :: 0 <= k < |ptrs| ==> ptrs[k] == NULL
    ensures Agrees(tag, a, ptrs, START)
  {
    hide Scan;
    assert a == Terminated(tag);
    assert Terminated(tag)[..|tag| - 1] == tag[..|tag| - 1];
  }
}
