/** The ICON transaction serialiser (chain/icon/client/serialize.go) and a parser that undoes it. */
module Serialize {
  import opened Base

  /** A decoded JSON value. Numbers are the integers they are cut to; Unsupported stands for a value of
      a type the serialiser does not know. */
  datatype Value =
    | Null
    | Text(s: Bytes)
    | Number(n: int)
    | Arr(items: seq<Value>)
    | Dict(entries: map<Bytes, Value>)
    | Unsupported

  const DOT: Byte := 46
  const ZERO: Byte := 48
  const MINUS: Byte := 45
  const LBRACKET: Byte := 91
  const BACKSLASH: Byte := 92
  const RBRACKET: Byte := 93
  const LBRACE: Byte := 123
  const RBRACE: Byte := 125

  predicate Special(b: Byte) {
    b == BACKSLASH || b == LBRACE || b == RBRACE || b == LBRACKET || b == RBRACKET || b == DOT
  }

  // ----- keys in order

  /** Byte-wise lexicographic order, the order of strings. */
  predicate Less(a: Bytes, b: Bytes) {
    b != [] && (a == [] || a[0] < b[0] || (a[0] == b[0] && Less(a[1..], b[1..])))
  }

  lemma {:induction false} LessTotal(a: Bytes, b: Bytes)
    ensures a == b || Less(a, b) || Less(b, a)
    ensures !(Less(a, b) && Less(b, a)) && !Less(a, a)
    decreases |a| + |b|
  {
    if a != [] {
      LessTotalSelf(a);
      if b != [] {
        LessTotal(a[1..], b[1..]);
        if a[0] == b[0] && a[1..] == b[1..] { assert a == [a[0]] + a[1..] == b; }
      }
    }
  }

  lemma {:induction false} LessTotalSelf(a: Bytes)
    ensures !Less(a, a)
    decreases |a|
  {
    if a != [] { LessTotalSelf(a[1..]); }
  }

  lemma {:induction false} LessTransitive(a: Bytes, b: Bytes, c: Bytes)
    requires Less(a, b) && Less(b, c)
    ensures Less(a, c)
    decreases |a|
  {
    if a != [] && a[0] == b[0] == c[0] { LessTransitive(a[1..], b[1..], c[1..]); }
  }

  /** The strings are ordered at the first place where they differ, or the first is a proper prefix of the
      second. */
  lemma {:induction false} LessFirstDifference(a: Bytes, b: Bytes)
    ensures Less(a, b) <==> exists i :: OrderedAt(a, b, i)
    decreases |a|
  {
    if a == [] {
      if b != [] { assert OrderedAt(a, b, 0); }
    } else if b != [] {
      LessFirstDifference(a[1..], b[1..]);
      if a[0] < b[0] { assert OrderedAt(a, b, 0); }
      if a[0] == b[0] {
        forall i | OrderedAt(a[1..], b[1..], i) ensures OrderedAt(a, b, i + 1) {
          forall j | 0 <= j < i + 1 ensures a[j] == b[j] {
            if j > 0 { assert a[1..][j - 1] == b[1..][j - 1]; }
          }
        }
        forall i | OrderedAt(a, b, i) ensures OrderedAt(a[1..], b[1..], i - 1) {}
      }
      forall i | OrderedAt(a, b, i) ensures a[0] <= b[0] { if i > 0 { assert a[0] == b[0]; } }
    }
  }

  /** The strings agree before place i, where the first ends or has the smaller byte. */
  ghost predicate OrderedAt(a: Bytes, b: Bytes, i: int) {
    0 <= i <= |a| && i < |b| && (forall j :: 0 <= j < i ==> a[j] == b[j]) && (i == |a| || a[i] < b[i])
  }

  /** The keys of a dictionary in increasing order. */
  ghost predicate Sorted(ks: seq<Bytes>) {
    forall i, j :: 0 <= i < j < |ks| ==> Less(ks[i], ks[j])
  }

  ghost predicate IsLeast(k: Bytes, s: set<Bytes>) {
    k in s && forall x :: x in s ==> x == k || Less(k, x)
  }

  lemma {:induction false} LeastExists(s: set<Bytes>) returns (k: Bytes)
    requires s != {}
    ensures IsLeast(k, s)
    decreases |s|
  {
    k :| k in s;
    var rest := s - {k};
    if rest == {} {
      assert s == {k};
    } else {
      var m := LeastExists(rest);
      LessTotal(k, m);
      if Less(m, k) {
        k := m;
      } else {
        forall x | x in s ensures x == k || Less(k, x) {
          if x in rest && x != m { LessTransitive(k, m, x); }
        }
      }
    }
  }

  ghost function Least(s: set<Bytes>): (k: Bytes)
    requires s != {}
    ensures IsLeast(k, s)
  {
    assert exists k :: IsLeast(k, s) by { var k := LeastExists(s); }
    var k :| IsLeast(k, s);
    k
  }

  lemma LeastUnique(s: set<Bytes>, k: Bytes)
    requires s != {} && IsLeast(k, s)
    ensures k == Least(s)
  {
    LessTotal(k, Least(s));
  }

  ghost function SortedKeys(s: set<Bytes>): (ks: seq<Bytes>)
    decreases |s|
  {
    if s == {} then [] else [Least(s)] + SortedKeys(s - {Least(s)})
  }

  /** The sorted keys are sorted and are exactly the keys. */
  lemma {:induction false} SortedKeysSpec(s: set<Bytes>)
    ensures Sorted(SortedKeys(s))
    ensures forall k :: k in SortedKeys(s) <==> k in s
    decreases |s|
  {
    if s != {} {
      var k := Least(s);
      var rest := SortedKeys(s - {k});
      SortedKeysSpec(s - {k});
      var ks := [k] + rest;
      forall i, j | 0 <= i < j < |ks| ensures Less(ks[i], ks[j]) {
        if i == 0 { assert ks[j] in rest; } else { assert ks[i] == rest[i - 1] && ks[j] == rest[j - 1]; }
      }
    }
  }

  // ----- the text of a value

  function Escape(s: Bytes): (t: Bytes) {
    if s == [] then []
    else if Special(s[0]) then [BACKSLASH, s[0]] + Escape(s[1..])
    else [s[0]] + Escape(s[1..])
  }

  function Digits(n: nat): (t: Bytes) {
    if n < 10 then [ZERO + n] else Digits(n / 10) + [ZERO + n % 10]
  }

  function Decimal(n: int): (t: Bytes) {
    if n < 0 then [MINUS] + Digits(-n) else Digits(n)
  }

  /** The number that a string of decimal digits stands for. */
  function DecimalValue(t: Bytes): (n: int) {
    if t == [] then 0 else 10 * DecimalValue(t[..|t| - 1]) + t[|t| - 1] - ZERO
  }

  /** The digits have the value of the number, and no zero is in front. */
  lemma {:induction false} DigitsValue(n: nat)
    ensures DecimalValue(Digits(n)) == n
    ensures Digits(n) != [] && forall i :: 0 <= i < |Digits(n)| ==> ZERO <= Digits(n)[i] <= ZERO + 9
    ensures Digits(n)[0] == ZERO ==> n == 0
  {
    if n >= 10 {
      DigitsValue(n / 10);
      var t := Digits(n);
      assert t[..|t| - 1] == Digits(n / 10);
    } else {
      assert Digits(n)[..0] == [];
    }
  }

  /** Different numbers have different texts. */
  lemma {:induction false} DecimalInjective(m: int, n: int)
    ensures Decimal(m) == Decimal(n) ==> m == n
  {
    hide Digits, DecimalValue;
    var a, b := if m < 0 then -m else m, if n < 0 then -n else n;
    DigitsValue(a);
    DigitsValue(b);
    assert Digits(a)[0] != MINUS && Digits(b)[0] != MINUS;
    if Decimal(m) == Decimal(n) {
      assert (m < 0) == (n < 0);
      if m < 0 {
        assert Decimal(m)[1..] == Digits(-m) && Decimal(n)[1..] == Digits(-n);
      }
    }
  }

  /** A string is its own text exactly if it has none of the six bytes that are escaped. */
  lemma {:induction false} EscapeUnchanged(s: Bytes)
    ensures |Escape(s)| >= |s|
    ensures Escape(s) == s <==> forall i :: 0 <= i < |s| ==> s[i] !in [46, 91, 92, 93, 123, 125]
    decreases |s|
  {
    if s != [] {
      EscapeUnchanged(s[1..]);
      if Special(s[0]) {
        assert |Escape(s)| > |s|;
      } else {
        assert s == [s[0]] + s[1..];
        assert Escape(s) == s <==> Escape(s[1..]) == s[1..] by {
          assert Escape(s)[1..] == Escape(s[1..]);
        }
        assert forall i :: 0 <= i < |s[1..]| ==> s[1..][i] == s[i + 1];
        assert forall i :: 0 < i < |s| ==> s[i] == s[1..][i - 1];
      }
    }
  }

  ghost predicate Supported(v: Value)
    decreases v
  {
    match v
    case Unsupported => false
    case Arr(xs) => forall i :: 0 <= i < |xs| ==> Supported(xs[i])
    case Dict(m) => forall k :: k in m ==> Supported(m[k])
    case _ => true
  }

  ghost function Serialized(v: Value): (t: Bytes)
    decreases v, 1
  {
    match v
    case Null => [BACKSLASH, ZERO]
    case Text(s) => Escape(s)
    case Number(n) => Decimal(n)
    case Arr(xs) => [LBRACKET] + Elements(xs) + [RBRACKET]
    case Dict(m) => SortedKeysSpec(m.Keys); [LBRACE] + Entries(v, SortedKeys(m.Keys)) + [RBRACE]
    case Unsupported => []
  }

  /** The elements of a list. No separator is written while nothing has been written, so elements
      without text disappear at the start. */
  ghost function Elements(xs: seq<Value>): (t: Bytes)
    decreases xs, 0
  {
    if xs == [] then []
    else if Serialized(xs[0]) == [] then Elements(xs[1..])
    else Serialized(xs[0]) + More(xs[1..])
  }

  ghost function More(xs: seq<Value>): (t: Bytes)
    decreases xs, 0
  {
    if xs == [] then [] else [DOT] + Serialized(xs[0]) + More(xs[1..])
  }

  ghost function Entry(v: Value, k: Bytes): (t: Bytes)
    requires v.Dict? && k in v.entries
    decreases v, 0, 0
  {
    Escape(k) + [DOT] + Serialized(v.entries[k])
  }

  /** The entries of a dictionary, in the order of the given keys. */
  ghost function Entries(v: Value, ks: seq<Bytes>): (t: Bytes)
    requires v.Dict? && forall k :: k in ks ==> k in v.entries
    decreases v, 0, 1 + |ks|
  {
    if ks == [] then []
    else if |ks| == 1 then Entry(v, ks[0])
    else Entry(v, ks[0]) + [DOT] + Entries(v, ks[1..])
  }

  // ----- what the text can show

  /** The value up to what the text does not show: a number is its decimal digits, and empty strings
      at the start of a list leave no trace. */
  ghost function Norm(v: Value): (w: Value)
    decreases v, 1
  {
    match v
    case Number(n) => Text(Decimal(n))
    case Arr(xs) => Arr(DropEmpty(NormAll(xs)))
    case Dict(m) => Dict(map k | k in m :: Norm(m[k]))
    case _ => v
  }

  ghost function NormAll(xs: seq<Value>): (ws: seq<Value>)
    ensures |ws| == |xs|
    decreases xs, 0
  {
    if xs == [] then [] else [Norm(xs[0])] + NormAll(xs[1..])
  }

  ghost function DropEmpty(xs: seq<Value>): (ws: seq<Value>) {
    if xs != [] && xs[0] == Text([]) then DropEmpty(xs[1..]) else xs
  }

  // ----- the parser

  /** A string up to the next special byte that is not escaped. */
  function ParseText(t: Bytes): (r: (Bytes, Bytes))
    ensures |r.1| <= |t|
    decreases |t|
  {
    if t == [] then ([], [])
    else if t[0] == BACKSLASH then
      if |t| >= 2 && Special(t[1]) then
        var (s, rest) := ParseText(t[2..]);
        ([t[1]] + s, rest)
      else ([], t)
    else if Special(t[0]) then ([], t)
    else
      var (s, rest) := ParseText(t[1..]);
      ([t[0]] + s, rest)
  }

  function Parse(t: Bytes): (r: Option<(Value, Bytes)>)
    ensures r.Some? ==> |r.value.1| <= |t|
    decreases |t|, 1
  {
    if |t| >= 2 && t[0] == BACKSLASH && t[1] == ZERO then Some((Null, t[2..]))
    else if |t| >= 1 && t[0] == LBRACKET then
      if |t| >= 2 && t[1] == RBRACKET then Some((Arr([]), t[2..])) else
      var r := ParseElements(t[1..]);
      if r.None? then None else Some((Arr(r.value.0), r.value.1))
    else if |t| >= 1 && t[0] == LBRACE then
      if |t| >= 2 && t[1] == RBRACE then Some((Dict(map[]), t[2..])) else
      var r := ParseEntries(t[1..]);
      if r.None? then None else Some((Dict(r.value.0), r.value.1))
    else
      var (s, rest) := ParseText(t);
      Some((Text(s), rest))
  }

  function ParseElements(t: Bytes): (r: Option<(seq<Value>, Bytes)>)
    ensures r.Some? ==> |r.value.1| <= |t|
    decreases |t|, 2
  {
    var x := Parse(t);
    if x.None? then None else
    var rest := x.value.1;
    if rest == [] then None
    else if rest[0] == RBRACKET then Some(([x.value.0], rest[1..]))
    else if rest[0] != DOT then None
    else
      var xs := ParseElements(rest[1..]);
      if xs.None? then None else Some(([x.value.0] + xs.value.0, xs.value.1))
  }

  function ParseEntries(t: Bytes): (r: Option<(map<Bytes, Value>, Bytes)>)
    ensures r.Some? ==> |r.value.1| <= |t|
    decreases |t|, 2
  {
    var (k, afterKey) := ParseText(t);
    if afterKey == [] || afterKey[0] != DOT then None else
    var x := Parse(afterKey[1..]);
    if x.None? then None else
    var rest := x.value.1;
    if rest == [] then None
    else if rest[0] == RBRACE then Some((map[k := x.value.0], rest[1..]))
    else if rest[0] != DOT then None
    else
      var m := ParseEntries(rest[1..]);
      if m.None? then None else Some((m.value.0[k := x.value.0], m.value.1))
  }

  /** What may follow a value in a text. */
  predicate Stop(t: Bytes) {
    t == [] || t[0] == DOT || t[0] == RBRACKET || t[0] == RBRACE
  }

  lemma {:induction false} ParseTextEscape(s: Bytes, rest: Bytes)
    requires Stop(rest)
    ensures ParseText(Escape(s) + rest) == (s, rest)
    decreases |s|
  {
    var t := Escape(s) + rest;
    if s == [] {
      assert t == rest;
    } else {
      ParseTextEscape(s[1..], rest);
      assert s == [s[0]] + s[1..];
      if Special(s[0]) {
        assert t[2..] == Escape(s[1..]) + rest;
      } else {
        assert t[1..] == Escape(s[1..]) + rest;
      }
    }
  }

  predicate Plain(t: Bytes) {
    forall i :: 0 <= i < |t| ==> !Special(t[i])
  }

  lemma {:induction false} DigitsPlain(n: nat)
    ensures Plain(Digits(n)) && |Digits(n)| >= 1
  {
    if n >= 10 { DigitsPlain(n / 10); }
  }

  lemma {:induction false} EscapePlain(t: Bytes)
    requires Plain(t)
    ensures Escape(t) == t
    decreases |t|
  {
    if t != [] {
      EscapePlain(t[1..]);
      assert t == [t[0]] + t[1..];
    }
  }

  lemma {:induction false} EscapeDecimal(n: int)
    ensures Escape(Decimal(n)) == Decimal(n) && |Decimal(n)| >= 1
  {
    if n < 0 { DigitsPlain(-n); } else { DigitsPlain(n); }
    EscapePlain(Decimal(n));
  }

  /** Only the empty string has no text. */
  lemma {:induction false} NoText(v: Value)
    requires Supported(v)
    ensures Serialized(v) == [] <==> Norm(v) == Text([])
  {
    hide Elements, Entries, Digits;
    match v
    case Number(n) => EscapeDecimal(n);
    case _ =>
  }

  /** How the text of a value begins. */
  lemma {:induction false} FirstByte(v: Value, rest: Bytes)
    requires Supported(v) && Serialized(v) != []
    ensures var b := (Serialized(v) + rest)[0]; b != DOT && b != RBRACKET && b != RBRACE
  {
    hide Elements, Entries, Digits;
    match v
    case Number(n) =>
      if n < 0 { DigitsPlain(-n); } else { DigitsPlain(n); }
      assert !Special(Decimal(n)[0]);
    case _ =>
  }

  /** Parsing the text of a string, or of a number, gives the string. */
  lemma {:induction false} ParseString(s: Bytes, rest: Bytes)
    requires Stop(rest)
    ensures Parse(Escape(s) + rest) == Some((Text(s), rest))
  {
    hide ParseText, ParseElements, ParseEntries;
    ParseTextEscape(s, rest);
    var t := Escape(s) + rest;
    EscapeStart(s, rest);
  }

  lemma {:induction false} EscapeStart(s: Bytes, rest: Bytes)
    requires Stop(rest)
    ensures var t := Escape(s) + rest;
            && (|t| >= 1 ==> t[0] != LBRACKET && t[0] != LBRACE)
            && !(|t| >= 2 && t[0] == BACKSLASH && t[1] == ZERO)
  {
    if s == [] { assert Escape(s) + rest == rest; }
  }

  /** Parsing the text of a value gives the value, up to what the text does not show, and the rest. */
  lemma {:induction false} ParseSerialized(v: Value, rest: Bytes)
    requires Supported(v) && Stop(rest)
    ensures Parse(Serialized(v) + rest) == Some((Norm(v), rest))
    decreases v, 1
  {
    hide Elements, Entries, ParseElements, ParseEntries, Escape, Decimal, ParseText, SortedKeys;
    match v
    case Null =>
      var t := Serialized(v) + rest;
      assert t[2..] == rest;
    case Text(s) => ParseString(s, rest);
    case Number(n) =>
      EscapeDecimal(n);
      ParseString(Decimal(n), rest);
    case Arr(xs) => ParseList(v, rest);
    case Dict(m) => ParseDict(v, rest);
  }

  lemma {:induction false} ParseList(v: Value, rest: Bytes)
    requires v.Arr? && Supported(v)
    ensures Parse(Serialized(v) + rest) == Some((Norm(v), rest))
    decreases v, 0
  {
    hide Elements, ParseElements, NormAll, DropEmpty;
    var xs := v.items;
    var t := Serialized(v) + rest;
    ElementsParsed(v, xs, rest);
    var inner := Elements(xs) + [RBRACKET] + rest;
    assert t[1..] == inner;
    if DropEmpty(NormAll(xs)) == [] {
      assert t[1] == RBRACKET && t[2..] == rest;
    } else {
      assert t[1] == inner[0];
    }
  }

  /** Parsing the elements of a list, of which there may be nothing to see. */
  lemma {:induction false} ElementsParsed(v: Value, xs: seq<Value>, rest: Bytes)
    requires v.Arr? && Supported(v) && forall x :: x in xs ==> x in v.items
    ensures DropEmpty(NormAll(xs)) == [] ==> Elements(xs) == []
    ensures DropEmpty(NormAll(xs)) != [] ==>
              var t := Elements(xs) + [RBRACKET] + rest;
              t[0] != RBRACKET && ParseElements(t) == Some((DropEmpty(NormAll(xs)), rest))
    decreases v, 0, |xs|, 1
  {
    hide Serialized, Parse, ParseElements, Norm, More;
    if xs != [] {
      var x, ys := xs[0], xs[1..];
      assert x in v.items;
      NoText(x);
      assert NormAll(xs)[0] == Norm(x) && NormAll(xs)[1..] == NormAll(ys);
      if Serialized(x) == [] {
        ElementsParsed(v, ys, rest);
      } else {
        ElementsTail(v, xs, rest);
        FirstShown(x, More(ys), rest);
      }
    }
  }

  lemma {:induction false} FirstShown(x: Value, more: Bytes, rest: Bytes)
    requires Supported(x) && Serialized(x) != []
    ensures (Serialized(x) + more + [RBRACKET] + rest)[0] != RBRACKET
  {
    hide Serialized, Supported;
    var t := more + [RBRACKET] + rest;
    FirstByte(x, t);
    assert Serialized(x) + more + [RBRACKET] + rest == Serialized(x) + t;
  }

  /** Parsing a non-empty run of elements that are all separated. */
  lemma {:induction false} ElementsTail(v: Value, xs: seq<Value>, rest: Bytes)
    requires v.Arr? && Supported(v) && xs != [] && forall x :: x in xs ==> x in v.items
    ensures ParseElements(Serialized(xs[0]) + More(xs[1..]) + [RBRACKET] + rest) == Some((NormAll(xs), rest))
    decreases v, 0, |xs|, 0
  {
    hide Serialized, Parse, Norm, ParseElements;
    var x, ys := xs[0], xs[1..];
    assert x in v.items;
    var after := More(ys) + [RBRACKET] + rest;
    var t := Serialized(x) + after;
    assert Serialized(x) + More(ys) + [RBRACKET] + rest == t;
    ParseSerialized(x, after);
    if ys == [] {
      assert after[0] == RBRACKET && after[1..] == rest;
      assert NormAll(xs) == [Norm(x)];
    } else {
      assert after[0] == DOT && after[1..] == Serialized(ys[0]) + More(ys[1..]) + [RBRACKET] + rest;
      ElementsTail(v, ys, rest);
    }
    ElementsStep(t, Norm(x), after);
  }

  lemma {:induction false} ElementsStep(t: Bytes, x: Value, after: Bytes)
    requires Parse(t) == Some((x, after)) && after != [] && (after[0] == RBRACKET || after[0] == DOT)
    requires after[0] == DOT ==> ParseElements(after[1..]).Some?
    ensures ParseElements(t) == if after[0] == RBRACKET then Some(([x], after[1..]))
                                else var r := ParseElements(after[1..]).value; Some(([x] + r.0, r.1))
  {
    hide Parse;
  }

  lemma {:induction false} ParseDict(v: Value, rest: Bytes)
    requires v.Dict? && Supported(v)
    ensures Parse(Serialized(v) + rest) == Some((Norm(v), rest))
    decreases v, 0
  {
    hide Entries, ParseEntries, SortedKeys, Norm;
    var ks := SortedKeys(v.entries.Keys);
    SortedKeysSpec(v.entries.Keys);
    var t := Serialized(v) + rest;
    if ks == [] {
      NoKeys(v);
      NoEntries(v);
      assert t[2..] == rest;
    } else {
      EntriesParsed(v, ks, rest);
      assert t[1..] == Entries(v, ks) + [RBRACE] + rest;
      EntriesStart(v, ks, [RBRACE] + rest);
      assert Entries(v, ks) + [RBRACE] + rest == Entries(v, ks) + ([RBRACE] + rest);
      assert t[0] == LBRACE && t[1] == t[1..][0] != RBRACE;
      NormAllKeys(v, ks);
    }
  }

  lemma NoKeys(v: Value)
    requires v.Dict? && SortedKeys(v.entries.Keys) == []
    ensures v.entries == map[] && Norm(v) == Dict(map[])
  {
    SortedKeysSpec(v.entries.Keys);
    assert v.entries.Keys == {};
  }

  lemma NoEntries(v: Value)
    requires v.Dict?
    ensures Entries(v, []) == []
  {
  }

  lemma {:induction false} EntriesStart(v: Value, ks: seq<Bytes>, rest: Bytes)
    requires v.Dict? && ks != [] && forall k :: k in ks ==> k in v.entries
    ensures |Entries(v, ks)| >= 1 && (Entries(v, ks) + rest)[0] != RBRACE
  {
    hide Serialized;
    var k := ks[0];
    assert Entry(v, k) == Escape(k) + ([DOT] + Serialized(v.entries[k]));
    EscapeFirst(k);
  }

  lemma EscapeFirst(s: Bytes)
    ensures s != [] ==> |Escape(s)| >= 1 && Escape(s)[0] != RBRACE
  {
  }

  lemma {:induction false} EntriesParsed(v: Value, ks: seq<Bytes>, rest: Bytes)
    requires v.Dict? && Supported(v) && ks != [] && Sorted(ks) && forall k :: k in ks ==> k in v.entries
    ensures ParseEntries(Entries(v, ks) + [RBRACE] + rest) == Some((NormKeys(v, ks), rest))
    decreases v, 0, |ks|
  {
    hide Serialized, Parse, Norm, ParseText, Escape, Less, Entries, ParseEntries, NormKeys;
    var k, x, more := ks[0], v.entries[ks[0]], ks[1..];
    var after := (if more == [] then [] else [DOT] + Entries(v, more)) + ([RBRACE] + rest);
    var t := Entries(v, ks) + [RBRACE] + rest;
    EntriesUnfold(v, ks, [RBRACE] + rest);
    assert t == Entries(v, ks) + ([RBRACE] + rest);
    ParseSerialized(x, after);
    EntriesStep(k, x, after);
    NormKeysStep(v, ks);
    if more == [] {
      assert after == [RBRACE] + rest && after[1..] == rest;
      assert ks == [k];
    } else {
      assert after[0] == DOT && after[1..] == Entries(v, more) + ([RBRACE] + rest);
      assert Entries(v, more) + ([RBRACE] + rest) == Entries(v, more) + [RBRACE] + rest;
      EntriesParsed(v, more, rest);
      assert ks == [k] + more;
    }
  }

  ghost function NormKeys(v: Value, ks: seq<Bytes>): (m: map<Bytes, Value>)
    requires v.Dict? && forall k :: k in ks ==> k in v.entries
  {
    map k | k in ks :: Norm(v.entries[k])
  }

  lemma NormKeysStep(v: Value, ks: seq<Bytes>)
    requires v.Dict? && ks != [] && forall k :: k in ks ==> k in v.entries
    ensures var k, x := ks[0], Norm(v.entries[ks[0]]);
            NormKeys(v, ks) == if ks[1..] == [] then map[k := x] else NormKeys(v, ks[1..])[k := x]
  {
    hide Norm;
    assert ks == [ks[0]] + ks[1..];
  }

  lemma NormAllKeys(v: Value, ks: seq<Bytes>)
    requires v.Dict? && forall k :: k in ks <==> k in v.entries
    ensures Norm(v) == Dict(NormKeys(v, ks))
  {
    assert Norm(v).entries == NormKeys(v, ks);
  }

  lemma {:induction false} EntriesUnfold(v: Value, ks: seq<Bytes>, end: Bytes)
    requires v.Dict? && ks != [] && forall k :: k in ks ==> k in v.entries
    ensures var more := ks[1..];
            var after := (if more == [] then [] else [DOT] + Entries(v, more)) + end;
            Entries(v, ks) + end == Escape(ks[0]) + ([DOT] + (Serialized(v.entries[ks[0]]) + after))
  {
    hide Serialized, Escape;
    var k, more := ks[0], ks[1..];
    var x := Serialized(v.entries[k]);
    if more == [] {
      assert Entries(v, ks) == Escape(k) + [DOT] + x;
      assert [] + end == end;
    } else {
      assert Entries(v, ks) == Escape(k) + [DOT] + x + [DOT] + Entries(v, more);
    }
  }

  lemma {:induction false} EntriesStep(k: Bytes, x: Value, after: Bytes)
    requires Parse(Serialized(x) + after) == Some((Norm(x), after)) && after != []
    requires after[0] == RBRACE || after[0] == DOT
    ensures var t := Escape(k) + ([DOT] + (Serialized(x) + after));
            ParseEntries(t) ==
              if after[0] == RBRACE then Some((map[k := Norm(x)], after[1..])) else
              var m := ParseEntries(after[1..]);
              if m.None? then None else Some((m.value.0[k := Norm(x)], m.value.1))
  {
    hide Serialized, Parse, Norm, ParseText, Escape;
    var u := [DOT] + (Serialized(x) + after);
    ParseTextEscape(k, u);
    assert u[1..] == Serialized(x) + after;
  }

  // ----- the text determines the value

  /** Normalising changes nothing in the text. */
  lemma {:induction false} NormText(v: Value)
    requires Supported(v)
    ensures Supported(Norm(v)) && Serialized(Norm(v)) == Serialized(v)
    decreases v, 1
  {
    hide Elements, Entries, Escape, Decimal, SortedKeys;
    match v
    case Number(n) => EscapeDecimal(n);
    case Arr(xs) =>
      NormAllText(v, xs);
    case Dict(m) =>
      var w := Norm(v);
      assert w.entries.Keys == m.Keys;
      forall k | k in m ensures Supported(w.entries[k]) && Serialized(w.entries[k]) == Serialized(m[k]) {
        NormText(m[k]);
      }
      SortedKeysSpec(m.Keys);
      SameEntries(v, w, SortedKeys(m.Keys));
    case _ =>
  }

  lemma {:induction false} SameEntries(v: Value, w: Value, ks: seq<Bytes>)
    requires v.Dict? && w.Dict? && forall k :: k in ks ==> k in v.entries && k in w.entries
    requires forall k :: k in ks ==> Serialized(v.entries[k]) == Serialized(w.entries[k])
    ensures Entries(v, ks) == Entries(w, ks)
    decreases |ks|
  {
    hide Serialized;
    if |ks| > 1 { SameEntries(v, w, ks[1..]); }
  }

  lemma {:induction false} NormAllText(v: Value, xs: seq<Value>)
    requires v.Arr? && Supported(v) && forall x :: x in xs ==> x in v.items
    ensures var ws := DropEmpty(NormAll(xs));
            && (forall i :: 0 <= i < |ws| ==> Supported(ws[i]))
            && Elements(ws) == Elements(xs)
    decreases v, 0, |xs|
  {
    hide Serialized, Norm, Supported, More;
    if xs != [] {
      var x, ys := xs[0], xs[1..];
      assert x in v.items;
      ElementSupported(v, x);
      NormText(x);
      NoText(x);
      assert NormAll(xs)[0] == Norm(x) && NormAll(xs)[1..] == NormAll(ys);
      if Serialized(x) == [] {
        NormAllText(v, ys);
      } else {
        MoreText(v, ys);
      }
    }
  }

  lemma ElementSupported(v: Value, x: Value)
    requires v.Arr? && Supported(v) && x in v.items
    ensures Supported(x)
  {
  }

  lemma {:induction false} MoreText(v: Value, xs: seq<Value>)
    requires v.Arr? && Supported(v) && forall x :: x in xs ==> x in v.items
    ensures (forall i :: 0 <= i < |xs| ==> Supported(NormAll(xs)[i])) && More(NormAll(xs)) == More(xs)
    decreases v, 0, |xs|
  {
    hide Serialized, Norm, Supported;
    if xs != [] {
      assert xs[0] in v.items;
      ElementSupported(v, xs[0]);
      NormText(xs[0]);
      MoreText(v, xs[1..]);
      assert NormAll(xs)[1..] == NormAll(xs[1..]);
    }
  }

  /** Two values have the same text exactly when they differ only in what the text does not show. */
  lemma {:induction false} SameTextIff(v: Value, w: Value)
    requires Supported(v) && Supported(w)
    ensures Serialized(v) == Serialized(w) <==> Norm(v) == Norm(w)
  {
    hide Serialized, Norm, Supported, Parse;
    ParseSerialized(v, []);
    ParseSerialized(w, []);
    assert Serialized(v) + [] == Serialized(v) && Serialized(w) + [] == Serialized(w);
    NormText(v);
    NormText(w);
  }

  /** No number, and no list that starts with an empty string: then the text shows everything. */
  ghost predicate Clear(v: Value)
    decreases v
  {
    match v
    case Number(_) => false
    case Unsupported => false
    case Arr(xs) => (forall i :: 0 <= i < |xs| ==> Clear(xs[i])) && (xs != [] ==> xs[0] != Text([]))
    case Dict(m) => forall k :: k in m ==> Clear(m[k])
    case _ => true
  }

  lemma {:induction false} ClearNorm(v: Value)
    requires Clear(v)
    ensures Supported(v) && Norm(v) == v
    decreases v, 1
  {
    match v
    case Arr(xs) =>
      forall i | 0 <= i < |xs| ensures Supported(xs[i]) { ClearNorm(xs[i]); }
      ClearAll(v, xs);
    case Dict(m) =>
      forall k | k in m ensures Supported(m[k]) && Norm(m[k]) == m[k] { ClearNorm(m[k]); }
      assert Norm(v).entries == m;
    case _ =>
  }

  lemma {:induction false} ClearAll(v: Value, xs: seq<Value>)
    requires v.Arr? && Clear(v) && forall x :: x in xs ==> x in v.items
    ensures NormAll(xs) == xs
    decreases v, 0, |xs|
  {
    if xs != [] {
      assert xs[0] in v.items;
      ClearNorm(xs[0]);
      ClearAll(v, xs[1..]);
      assert xs == [xs[0]] + xs[1..];
    }
  }

  /** Different clear values never have the same text. */
  lemma {:induction false} Unambiguous(v: Value, w: Value)
    requires Clear(v) && Clear(w) && Serialized(v) == Serialized(w)
    ensures v == w
  {
    hide Serialized, Norm;
    ClearNorm(v);
    ClearNorm(w);
    SameTextIff(v, w);
  }

  /** The excluded values do collide: an empty string in a list is not seen, a number looks like its
      digits. */
  lemma SeparatorRule()
    ensures Serialized(Arr([Text([])])) == Serialized(Arr([]))
    ensures Serialized(Number(7)) == Serialized(Text([55]))
  {
    assert Elements([Text([])]) == Elements([Text([])][1..]) by { assert Serialized(Text([])) == Escape([]) == []; }
    assert Escape([55]) == [55] + Escape([55][1..]);
    assert Decimal(7) == Digits(7) == [55];
  }
}
