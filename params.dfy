/** Numeric parameters of a control sequence, as the VT102 decoder reads
    them: the field splitter of attributes(), the two integer conversions it
    relies on (QString::toInt on a digit run, QByteArray::toInt on the whole
    parameter text), and the rendering of parameter lists that the splitter
    reads back. */
module Params {
  import opened Bytes

  /** The largest value of a 32-bit int. */
  const MaxInt: int := 0x7FFF_FFFF
  const MinInt: int := -0x8000_0000

  const QMark: byte := 0x3F
  const Semicolon: byte := 0x3B
  const Plus: byte := 0x2B
  const Minus: byte := 0x2D

  /** One parameter: an ordinary one, or one introduced by '?'. */
  datatype Param = Ordinary(value: int) | Extended(value: int)

  /** QString::toInt on a run of decimal digits: its value when that fits an
      int, 0 when it does not or when the run is empty. */
  function DigitsToInt(d: seq<byte>): (v: int)
    requires AllDigits(d)
    ensures 0 <= v <= MaxInt
    ensures d != [] && DecimalValue(d) <= MaxInt ==> v == DecimalValue(d)
    ensures d == [] || DecimalValue(d) > MaxInt ==> v == 0
  {
    if d == [] then 0 else if DecimalValue(d) <= MaxInt then DecimalValue(d) else 0
  }

  /** The longest run of digits at the start of s. */
  function DigitRun(s: seq<byte>): (d: seq<byte>)
    ensures |d| <= |s| && d == s[..|d|] && AllDigits(d)
    ensures |d| < |s| ==> !IsDigit(s[|d|])
  {
    if s != [] && IsDigit(s[0]) then [s[0]] + DigitRun(s[1..]) else []
  }

  /** The text after position k, or nothing when k is past the end. */
  function Drop(s: seq<byte>, k: nat): (r: seq<byte>)
    ensures |r| <= |s|
  {
    if k <= |s| then s[k..] else []
  }

  /** What attributes() reads from s. At each position a '?' introduces an
      extended parameter made of the digits after it; anything else starts an
      ordinary parameter made of the digits from there. Either way one more
      byte, normally the ';', is skipped after the digits, so an empty field
      reads as 0. */
  function Fields(s: seq<byte>): (ps: seq<Param>)
    ensures |ps| <= |s|
    ensures (|ps| == 0) == (|s| == 0)
    decreases |s|
  {
    if s == [] then []
    else if s[0] == QMark then
      var d := DigitRun(s[1..]);
      [Extended(DigitsToInt(d))] + Fields(Drop(s, |d| + 2))
    else
      var d := DigitRun(s);
      [Ordinary(DigitsToInt(d))] + Fields(Drop(s, |d| + 1))
  }

  /** The values of the ordinary parameters, in order. */
  function Ordinaries(ps: seq<Param>): (vs: seq<int>)
    ensures |vs| <= |ps|
  {
    if ps == [] then []
    else (if ps[0].Ordinary? then [ps[0].value] else []) + Ordinaries(ps[1..])
  }

  /** The values of the extended parameters, in order. */
  function Extendeds(ps: seq<Param>): (vs: seq<int>)
    ensures |vs| <= |ps|
  {
    if ps == [] then []
    else (if ps[0].Extended? then [ps[0].value] else []) + Extendeds(ps[1..])
  }

  /** Every parameter is ordinary or extended, so the two lists together
      hold one value per field. */
  lemma {:induction false} SplitCountsFields(ps: seq<Param>)
    ensures |Ordinaries(ps)| + |Extendeds(ps)| == |ps|
  {
    if ps != [] {
      SplitCountsFields(ps[1..]);
    }
  }

  /** The result of attributes(): ordinary values, extended values, and
      whether there was any. */
  function Attributes(s: seq<byte>): (r: (seq<int>, seq<int>, bool))
    ensures r.2 == (|r.0| > 0 || |r.1| > 0)
    ensures r.2 <==> |s| > 0
  {
    var ps := Fields(s);
    SplitCountsFields(ps);
    (Ordinaries(ps), Extendeds(ps), |Ordinaries(ps)| > 0 || |Extendeds(ps)| > 0)
  }

  lemma OrdinariesCons(p: Param, rest: seq<Param>)
    ensures Ordinaries([p] + rest) == (if p.Ordinary? then [p.value] else []) + Ordinaries(rest)
    ensures Extendeds([p] + rest) == (if p.Extended? then [p.value] else []) + Extendeds(rest)
  {
    assert ([p] + rest)[1..] == rest;
  }

  /** Dropping from a suffix is dropping from the whole text. */
  lemma DropDrop(s: seq<byte>, n: nat, k: nat)
    requires n <= |s|
    ensures Drop(s[n..], k) == Drop(s, n + k)
  {
    if n + k <= |s| {
      assert s[n..][k..] == s[n + k..];
    }
  }

  /** A text that starts with a '?' field with digits d. */
  lemma FieldsQuestionHead(s: seq<byte>, d: seq<byte>, rest: seq<byte>)
    requires s != [] && s[0] == QMark && s[1..] == d + rest
    requires AllDigits(d) && (rest == [] || !IsDigit(rest[0]))
    ensures Fields(s) == [Extended(DigitsToInt(d))] + Fields(Drop(s, |d| + 2))
  {
    DigitRunOfDigits(d, rest);
  }

  /** A text that starts with an ordinary field with digits d. */
  lemma FieldsOrdinaryHead(s: seq<byte>, d: seq<byte>, rest: seq<byte>)
    requires s != [] && s[0] != QMark && s == d + rest
    requires AllDigits(d) && (rest == [] || !IsDigit(rest[0]))
    ensures Fields(s) == [Ordinary(DigitsToInt(d))] + Fields(Drop(s, |d| + 1))
  {
    DigitRunOfDigits(d, rest);
  }

  /** The text from a mark at n is the mark, the digits up to m and the
      rest; skipping the digits and two more bytes lands after m. */
  lemma SplitAfterMark(code: seq<byte>, n: nat, m: nat)
    requires n + 1 <= m <= |code|
    ensures Drop(code, n) != [] && Drop(code, n)[0] == code[n]
    ensures Drop(code, n)[1..] == code[n + 1..m] + code[m..]
    ensures code[m..] == [] || code[m..][0] == code[m]
    ensures Drop(Drop(code, n), |code[n + 1..m]| + 2) == Drop(code, m + 1)
  {
    DropDrop(code, n, |code[n + 1..m]| + 2);
  }

  /** The field at position n of the text, when it is a '?' one whose digits
      end at m. */
  lemma FieldsAtQuestion(code: seq<byte>, n: nat, m: nat)
    requires n < |code| && code[n] == QMark && n + 1 <= m <= |code|
    requires AllDigits(code[n + 1..m]) && (m == |code| || !IsDigit(code[m]))
    ensures Fields(Drop(code, n)) == [Extended(DigitsToInt(code[n + 1..m]))] + Fields(Drop(code, m + 1))
  {
    SplitAfterMark(code, n, m);
    FieldsQuestionHead(Drop(code, n), code[n + 1..m], code[m..]);
  }

  /** The field at position n of the text, when it is an ordinary one whose
      digits end at m. */
  lemma FieldsAtOrdinary(code: seq<byte>, n: nat, m: nat)
    requires n < |code| && code[n] != QMark && n <= m <= |code|
    requires AllDigits(code[n..m]) && (m == |code| || !IsDigit(code[m]))
    ensures Fields(Drop(code, n)) == [Ordinary(DigitsToInt(code[n..m]))] + Fields(Drop(code, m + 1))
  {
    var s := code[n..];
    var d := code[n..m];
    assert Drop(code, n) == s;
    assert s == d + code[m..];
    FieldsOrdinaryHead(s, d, code[m..]);
    DropDrop(code, n, |d| + 1);
    assert n + (|d| + 1) == m + 1;
    assert Drop(s, |d| + 1) == Drop(code, m + 1);
  }

  /** The values of the fields from a '?' field on. */
  lemma ValuesAtQuestion(s: seq<byte>, n: nat, m: nat)
    requires n < |s| && s[n] == QMark && n + 1 <= m <= |s|
    requires AllDigits(s[n + 1..m]) && (m == |s| || !IsDigit(s[m]))
    ensures Ordinaries(Fields(Drop(s, n))) == Ordinaries(Fields(Drop(s, m + 1)))
    ensures Extendeds(Fields(Drop(s, n))) == [DigitsToInt(s[n + 1..m])] + Extendeds(Fields(Drop(s, m + 1)))
  {
    var rest := Fields(Drop(s, m + 1));
    FieldsAtQuestion(s, n, m);
    OrdinariesCons(Extended(DigitsToInt(s[n + 1..m])), rest);
    assert [] + Ordinaries(rest) == Ordinaries(rest);
  }

  /** The values of the fields from an ordinary field on. */
  lemma ValuesAtOrdinary(s: seq<byte>, n: nat, m: nat)
    requires n < |s| && s[n] != QMark && n <= m <= |s|
    requires AllDigits(s[n..m]) && (m == |s| || !IsDigit(s[m]))
    ensures Ordinaries(Fields(Drop(s, n))) == [DigitsToInt(s[n..m])] + Ordinaries(Fields(Drop(s, m + 1)))
    ensures Extendeds(Fields(Drop(s, n))) == Extendeds(Fields(Drop(s, m + 1)))
  {
    var rest := Fields(Drop(s, m + 1));
    FieldsAtOrdinary(s, n, m);
    OrdinariesCons(Ordinary(DigitsToInt(s[n..m])), rest);
    assert [] + Extendeds(rest) == Extendeds(rest);
  }

  lemma AppendAssoc(a: seq<int>, b: seq<int>, c: seq<int>)
    ensures (a + b) + c == a + (b + c)
  {
  }

  /** The state of attributes()'s loop at position n: the lists read so far
      followed by the values of the fields from n on are the values of all
      the fields. */
  ghost predicate ReadUpTo(s: seq<byte>, n: nat, attrs: seq<int>, ext: seq<int>) {
    attrs + Ordinaries(Fields(Drop(s, n))) == Ordinaries(Fields(s)) &&
    ext + Extendeds(Fields(Drop(s, n))) == Extendeds(Fields(s))
  }

  lemma ReadNothing(s: seq<byte>)
    ensures ReadUpTo(s, 0, [], [])
  {
    assert Drop(s, 0) == s;
    assert [] + Ordinaries(Fields(s)) == Ordinaries(Fields(s));
    assert [] + Extendeds(Fields(s)) == Extendeds(Fields(s));
  }

  /** Reading a '?' field whose digits end at m appends its value to the
      extended list and moves past the byte after the digits. */
  lemma QuestionStep(s: seq<byte>, n: nat, m: nat, attrs: seq<int>, ext: seq<int>)
    requires n < |s| && s[n] == QMark && n + 1 <= m <= |s|
    requires AllDigits(s[n + 1..m]) && (m == |s| || !IsDigit(s[m]))
    requires ReadUpTo(s, n, attrs, ext)
    ensures ReadUpTo(s, m + 1, attrs, ext + [DigitsToInt(s[n + 1..m])])
  {
    var e := Extendeds(Fields(Drop(s, m + 1)));
    ValuesAtQuestion(s, n, m);
    AppendAssoc(ext, [DigitsToInt(s[n + 1..m])], e);
  }

  /** Reading an ordinary field whose digits end at m appends its value to
      the ordinary list and moves past the byte after the digits. */
  lemma OrdinaryStep(s: seq<byte>, n: nat, m: nat, attrs: seq<int>, ext: seq<int>)
    requires n < |s| && s[n] != QMark && n <= m <= |s|
    requires AllDigits(s[n..m]) && (m == |s| || !IsDigit(s[m]))
    requires ReadUpTo(s, n, attrs, ext)
    ensures ReadUpTo(s, m + 1, attrs + [DigitsToInt(s[n..m])], ext)
  {
    var o := Ordinaries(Fields(Drop(s, m + 1)));
    ValuesAtOrdinary(s, n, m);
    AppendAssoc(attrs, [DigitsToInt(s[n..m])], o);
  }

  /** QuestionStep in the terms of the loop: it goes on at next with ext2. */
  lemma ReadQuestion(s: seq<byte>, n: nat, m: nat, next: nat, attrs: seq<int>, ext: seq<int>, ext2: seq<int>)
    requires n < |s| && s[n] == QMark && n + 1 <= m <= |s| && next == m + 1
    requires AllDigits(s[n + 1..m]) && (m == |s| || !IsDigit(s[m]))
    requires ReadUpTo(s, n, attrs, ext) && ext2 == ext + [DigitsToInt(s[n + 1..m])]
    ensures ReadUpTo(s, next, attrs, ext2)
  {
    QuestionStep(s, n, m, attrs, ext);
  }

  /** OrdinaryStep in the terms of the loop: it goes on at next with attrs2. */
  lemma ReadOrdinary(s: seq<byte>, n: nat, m: nat, next: nat, attrs: seq<int>, ext: seq<int>, attrs2: seq<int>)
    requires n < |s| && s[n] != QMark && n <= m <= |s| && next == m + 1
    requires AllDigits(s[n..m]) && (m == |s| || !IsDigit(s[m]))
    requires ReadUpTo(s, n, attrs, ext) && attrs2 == attrs + [DigitsToInt(s[n..m])]
    ensures ReadUpTo(s, next, attrs2, ext)
  {
    OrdinaryStep(s, n, m, attrs, ext);
  }

  /** At the end of the text the loop has read every field. */
  lemma ReadAll(s: seq<byte>, n: nat, attrs: seq<int>, ext: seq<int>)
    requires |s| <= n && ReadUpTo(s, n, attrs, ext)
    ensures (attrs, ext, |attrs| > 0 || |ext| > 0) == Attributes(s)
  {
    assert Fields(Drop(s, n)) == [];
    assert attrs + [] == attrs && ext + [] == ext;
  }

  // --- the rendering that attributes() reads back

  function RenderValue(v: nat): seq<byte> { Decimal(v) }

  function RenderParam(p: Param): seq<byte>
    requires p.value >= 0
  {
    match p
    case Ordinary(v) => RenderValue(v)
    case Extended(v) => [QMark] + RenderValue(v)
  }

  predicate Renderable(ps: seq<Param>) {
    forall i :: 0 <= i < |ps| ==> 0 <= ps[i].value <= MaxInt
  }

  /** The parameters written out and separated by ';'. */
  function Render(ps: seq<Param>): seq<byte>
    requires Renderable(ps)
  {
    if ps == [] then []
    else if |ps| == 1 then RenderParam(ps[0])
    else RenderParam(ps[0]) + [Semicolon] + Render(ps[1..])
  }

  /** A digit run stops at the first byte that is not a digit. */
  lemma {:induction false} DigitRunOfDigits(d: seq<byte>, rest: seq<byte>)
    requires AllDigits(d) && (rest == [] || !IsDigit(rest[0]))
    ensures DigitRun(d + rest) == d
  {
    if d != [] {
      assert (d + rest)[1..] == d[1..] + rest;
      DigitRunOfDigits(d[1..], rest);
    }
  }

  /** Drop past a separator equals dropping the separator from the rest. */
  lemma DropAfterField(d: seq<byte>, rest: seq<byte>, k: nat)
    requires k == |d| + 1
    ensures Drop(d + rest, k) == Drop(rest, 1)
  {
    if rest != [] {
      assert (d + rest)[k..] == rest[1..];
    }
  }

  lemma FieldsOfRenderedOrdinary(v: int, rest: seq<byte>)
    requires 0 <= v <= MaxInt
    requires rest == [] || rest[0] == Semicolon
    ensures Fields(Decimal(v) + rest) == [Ordinary(v)] + Fields(Drop(rest, 1))
  {
    var d := Decimal(v);
    var s := d + rest;
    DecimalRoundTrip(v);
    DigitRunOfDigits(d, rest);
    assert s[0] == d[0] && IsDigit(s[0]);
    assert DigitsToInt(d) == v;
    DropAfterField(d, rest, |d| + 1);
  }

  lemma FieldsOfRenderedExtended(v: int, rest: seq<byte>)
    requires 0 <= v <= MaxInt
    requires rest == [] || rest[0] == Semicolon
    ensures Fields([QMark] + Decimal(v) + rest) == [Extended(v)] + Fields(Drop(rest, 1))
  {
    var d := Decimal(v);
    var s := [QMark] + d + rest;
    assert s[1..] == d + rest;
    DecimalRoundTrip(v);
    DigitRunOfDigits(d, rest);
    assert DigitsToInt(d) == v;
    DropAfterField([QMark] + d, rest, |d| + 2);
  }

  /** One field written out and followed by rest is read back as that field
      followed by whatever rest reads as. */
  lemma FieldsOfRenderedParam(p: Param, rest: seq<byte>)
    requires 0 <= p.value <= MaxInt
    requires rest == [] || rest[0] == Semicolon
    ensures Fields(RenderParam(p) + rest) == [p] + Fields(Drop(rest, 1))
  {
    match p
    case Ordinary(v) => FieldsOfRenderedOrdinary(v, rest);
    case Extended(v) => FieldsOfRenderedExtended(v, rest);
  }

  /** A list of two or more parameters is written as the first one and the
      ';'-prefixed rest. */
  lemma RenderSplits(ps: seq<Param>, rest: seq<byte>)
    requires Renderable(ps) && |ps| > 1 && rest == [Semicolon] + Render(ps[1..])
    ensures Render(ps) == RenderParam(ps[0]) + rest
    ensures rest[0] == Semicolon && Drop(rest, 1) == Render(ps[1..])
  {
    SeparatedJoin(RenderParam(ps[0]), Render(ps[1..]));
  }

  lemma SeparatedJoin(a: seq<byte>, c: seq<byte>)
    ensures a + [Semicolon] + c == a + ([Semicolon] + c)
    ensures ([Semicolon] + c)[1..] == c
  {
  }

  /** attributes() reads back exactly the parameters that were written. */
  lemma {:induction false} FieldsRender(ps: seq<Param>)
    requires Renderable(ps)
    ensures Fields(Render(ps)) == ps
  {
    if ps == [] {
    } else if |ps| == 1 {
      FieldsOfRenderedParam(ps[0], []);
      assert RenderParam(ps[0]) + [] == RenderParam(ps[0]);
    } else {
      var rest := [Semicolon] + Render(ps[1..]);
      RenderSplits(ps, rest);
      FieldsOfRenderedParam(ps[0], rest);
      FieldsRender(ps[1..]);
    }
  }

  /** The round trip stated on the two lists attributes() fills. */
  lemma AttributesRender(ps: seq<Param>)
    requires Renderable(ps)
    ensures Attributes(Render(ps)).0 == Ordinaries(ps)
    ensures Attributes(Render(ps)).1 == Extendeds(ps)
  {
    FieldsRender(ps);
  }

  // --- QByteArray::toInt on the parameter text of J, K, L and P

  /** The C whitespace strtoll skips before the number and Qt accepts after it. */
  predicate IsCSpace(b: byte) { b == 0x20 || (0x09 <= b <= 0x0D) }

  function SkipSpaces(s: seq<byte>): (r: seq<byte>)
    ensures |r| <= |s| && r == s[|s| - |r|..]
    ensures r == [] || !IsCSpace(r[0])
  {
    if s != [] && IsCSpace(s[0]) then SkipSpaces(s[1..]) else s
  }

  predicate AllSpaces(s: seq<byte>) { forall i :: 0 <= i < |s| ==> IsCSpace(s[i]) }

  /** The signed value strtoll reads after the whitespace: the sign, then
      the digits; and the text it stops at. */
  function SignedPrefix(s: seq<byte>): (r: (int, int, seq<byte>))
    ensures r.0 == 1 || r.0 == -1
  {
    var neg := s != [] && s[0] == Minus;
    var unsigned := if s != [] && (s[0] == Minus || s[0] == Plus) then s[1..] else s;
    var d := DigitRun(unsigned);
    (if neg then -1 else 1, DecimalValue(d), unsigned[|d|..])
  }

  /** QByteArray::toInt(): the text up to the first NUL, optional leading
      whitespace, an optional sign, digits, optional trailing whitespace; 0
      when anything else follows the digits or the value does not fit an int. */
  function ByteArrayToInt(s: seq<byte>): (v: int)
    ensures MinInt <= v <= MaxInt
  {
    var (sign, magnitude, rest) := SignedPrefix(SkipSpaces(UntilNul(s)));
    var value := sign * magnitude;
    if AllSpaces(rest) && MinInt <= value <= MaxInt then value else 0
  }

  lemma {:induction false} UntilNulWithoutNul(s: seq<byte>)
    requires NUL !in s
    ensures UntilNul(s) == s
  {
    if s != [] {
      assert NUL !in s[1..];
      UntilNulWithoutNul(s[1..]);
    }
  }

  lemma {:induction false} SkipSpacesBefore(pre: seq<byte>, s: seq<byte>)
    requires AllSpaces(pre) && (s == [] || !IsCSpace(s[0]))
    ensures SkipSpaces(pre + s) == s
  {
    if pre != [] {
      assert (pre + s)[1..] == pre[1..] + s;
      SkipSpacesBefore(pre[1..], s);
    } else {
      assert pre + s == s;
    }
  }

  lemma NoNulInPadded(pre: seq<byte>, d: seq<byte>, post: seq<byte>)
    requires AllSpaces(pre) && AllDigits(d) && AllSpaces(post)
    ensures NUL !in pre + d + post
  {
    var s := pre + d + post;
    forall i | 0 <= i < |s| ensures s[i] != NUL {
      if i < |pre| { assert s[i] == pre[i]; }
      else if i < |pre| + |d| { assert s[i] == d[i - |pre|]; }
      else { assert s[i] == post[i - |pre| - |d|]; }
    }
  }

  /** Unsigned digits followed by blanks: a positive value and the blanks. */
  lemma SignedPrefixOfDigits(d: seq<byte>, post: seq<byte>)
    requires AllDigits(d) && d != [] && AllSpaces(post)
    ensures SignedPrefix(d + post) == (1, DecimalValue(d), post)
  {
    var u := d + post;
    assert u[0] == d[0] && IsDigit(u[0]);
    DigitRunOfDigits(d, post);
    assert u[|d|..] == post;
  }

  /** Digits between blanks read as the digits alone: both conversions agree
      on them. */
  lemma ByteArrayToIntPadded(pre: seq<byte>, d: seq<byte>, post: seq<byte>)
    requires AllSpaces(pre) && AllDigits(d) && d != [] && AllSpaces(post)
    ensures ByteArrayToInt(pre + d + post) == DigitsToInt(d)
  {
    PaddedNumberText(pre, d, post);
    SignedPrefixOfDigits(d, post);
  }

  /** The text strtoll parses in digits between blanks: the digits and the
      blanks after them. */
  lemma PaddedNumberText(pre: seq<byte>, d: seq<byte>, post: seq<byte>)
    requires AllSpaces(pre) && AllDigits(d) && d != [] && AllSpaces(post)
    ensures SkipSpaces(UntilNul(pre + d + post)) == d + post
  {
    NoNulInPadded(pre, d, post);
    UntilNulWithoutNul(pre + d + post);
    SkipToDigits(pre, d, post);
  }

  lemma SkipToDigits(pre: seq<byte>, d: seq<byte>, post: seq<byte>)
    requires AllSpaces(pre) && AllDigits(d) && d != []
    ensures SkipSpaces(pre + d + post) == d + post
  {
    assert pre + d + post == pre + (d + post);
    assert (d + post)[0] == d[0];
    SkipSpacesBefore(pre, d + post);
  }

  /** On a run of digits ending the text, the two conversions agree. */
  lemma ByteArrayToIntOfDigits(d: seq<byte>)
    requires AllDigits(d) && d != []
    ensures ByteArrayToInt(d) == DigitsToInt(d)
  {
    ByteArrayToIntPadded([], d, []);
    assert [] + d + [] == d;
  }

  /** Reading back the text printf writes for a value that fits. */
  lemma ByteArrayToIntDecimal(n: nat)
    requires n <= MaxInt
    ensures ByteArrayToInt(Decimal(n)) == n
  {
    DecimalRoundTrip(n);
    ByteArrayToIntOfDigits(Decimal(n));
  }

  /** A plain number. */
  lemma ByteArrayToIntPlain()
    ensures ByteArrayToInt([0x32]) == 2
  {
    var two: seq<byte> := [0x32];
    assert DecimalValue(two) == 2;
    ByteArrayToIntOfDigits(two);
  }

  /** A leading minus sign gives a negative value. */
  lemma ByteArrayToIntNegative()
    ensures ByteArrayToInt([0x2D, 0x33]) == -3
  {
    var s: seq<byte> := [0x2D, 0x33];
    var three: seq<byte> := [0x33];
    UntilNulWithoutNul(s);
    assert SkipSpaces(s) == s;
    assert s[1..] == three;
    DigitRunOfDigits(three, []);
    assert three + [] == three;
    assert DecimalValue(three) == 3;
    assert SignedPrefix(s) == (-1, 3, []);
  }

  /** The digits of a number followed by a byte that is neither a digit
      nor whitespace: strtoll stops at that byte. */
  lemma SignedPrefixStopsAtJunk(d: seq<byte>, rest: seq<byte>)
    requires d != [] && AllDigits(d) && rest != [] && !IsDigit(rest[0])
    ensures SkipSpaces(d + rest) == d + rest
    ensures SignedPrefix(d + rest).2 == rest
  {
    assert (d + rest)[0] == d[0];
    DigitRunOfDigits(d, rest);
    assert (d + rest)[|d|..] == rest;
  }

  /** Digits followed by anything but whitespace are not a number: such a
      text reads as 0. */
  lemma ByteArrayToIntRejectsJunk(d: seq<byte>, rest: seq<byte>)
    requires d != [] && AllDigits(d) && rest != [] && !IsDigit(rest[0]) && !IsCSpace(rest[0])
    requires NUL !in d + rest
    ensures ByteArrayToInt(d + rest) == 0
  {
    UntilNulWithoutNul(d + rest);
    SignedPrefixStopsAtJunk(d, rest);
  }

  /** A parameter list is not a number: it reads as 0. */
  lemma ByteArrayToIntRejects()
    ensures ByteArrayToInt([0x31, 0x3B, 0x32]) == 0
  {
    var one: seq<byte> := [0x31];
    var tail: seq<byte> := [0x3B, 0x32];
    assert [0x31, 0x3B, 0x32] == one + tail;
    ByteArrayToIntRejectsJunk(one, tail);
  }

  /** A '?' parameter is not a number either. */
  lemma ByteArrayToIntRejectsQuestion()
    ensures ByteArrayToInt([0x3F, 0x31]) == 0
  {
    var ext: seq<byte> := [0x3F, 0x31];
    UntilNulWithoutNul(ext);
    assert SkipSpaces(ext) == ext;
    assert DigitRun(ext) == [];
    assert SignedPrefix(ext).2 == ext && !IsCSpace(ext[0]);
  }

  /** The text ends at its first NUL. */
  lemma ByteArrayToIntStopsAtNul()
    ensures ByteArrayToInt([0x31, 0x00, 0x35]) == 1
  {
    var s: seq<byte> := [0x31, 0x00, 0x35];
    var one: seq<byte> := [0x31];
    assert s[1..][0] == NUL;
    assert UntilNul(s) == one;
    assert DecimalValue(one) == 1;
    ByteArrayToIntOfDigits(one);
  }

  /** "10;5" holds two ordinary parameters. */
  lemma AttributesTwoValues()
    ensures Attributes([0x31, 0x30, 0x3B, 0x35]) == ([10, 5], [], true)
  {
    var s: seq<byte> := [0x31, 0x30, 0x3B, 0x35];
    assert DigitRun(s) == [0x31, 0x30];
    assert DecimalValue([0x31, 0x30]) == 10;
    assert Drop(s, 3) == [0x35];
    assert DigitRun([0x35]) == [0x35];
    assert Drop([0x35], 2) == [];
    assert Fields([0x35]) == [Ordinary(5)];
    assert Fields(s) == [Ordinary(10), Ordinary(5)];
    var ps := [Ordinary(10), Ordinary(5)];
    assert ps[1..] == [Ordinary(5)];
    assert Ordinaries(ps) == [10, 5];
    assert Extendeds(ps) == [];
  }

  /** "?25" holds one extended parameter. */
  lemma AttributesExtended()
    ensures Attributes([0x3F, 0x32, 0x35]) == ([], [25], true)
  {
    var s: seq<byte> := [0x3F, 0x32, 0x35];
    assert s[1..] == [0x32, 0x35];
    assert DigitRun([0x32, 0x35]) == [0x32, 0x35];
    assert DecimalValue([0x32, 0x35]) == 25;
    assert Drop(s, 4) == [];
    assert Fields(s) == [Extended(25)];
    assert Ordinaries([Extended(25)]) == [];
    assert Extendeds([Extended(25)]) == [25];
  }

  /** Empty fields read as 0; no text reads as no parameters. */
  lemma AttributesEmptyFields()
    ensures Attributes([0x3B]) == ([0], [], true)
    ensures Attributes([0x3B, 0x3B]) == ([0, 0], [], true)
    ensures Attributes([]) == ([], [], false)
  {
    assert DigitRun([0x3B]) == [];
    assert Drop([0x3B], 1) == [];
    assert Fields([0x3B]) == [Ordinary(0)];
    assert Ordinaries([Ordinary(0)]) == [0] && Extendeds([Ordinary(0)]) == [];
    assert DigitRun([0x3B, 0x3B]) == [];
    assert Drop([0x3B, 0x3B], 1) == [0x3B];
    assert Fields([0x3B, 0x3B]) == [Ordinary(0), Ordinary(0)];
    var ps := [Ordinary(0), Ordinary(0)];
    assert ps[1..] == [Ordinary(0)];
    assert Ordinaries(ps) == [0, 0] && Extendeds(ps) == [];
  }
}
