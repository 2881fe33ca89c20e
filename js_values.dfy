/** JavaScript values and the few built-in operations the application relies on.
    Objects are association lists in key-insertion order (the order `Object.keys` reports);
    numbers are exact reals, so NaN is never stored, and a conversion that would give NaN
    returns `None`. */
module JsValues {

  datatype Option<T> = None | Some(value: T)

  datatype Js =
    | Undef
    | Null
    | Bool(b: bool)
    | Num(n: real)
    | Str(s: string)
    | Arr(items: seq<Js>)
    | Obj(fields: seq<Field>)
    /** `new Date()` (arg None) or `new Date(x)` (arg Some(x)); the clock and date parsing are not modelled. */
    | Date(arg: Option<Js>)

  datatype Field = Field(key: string, val: Js)

  /** How numbers and dates print; number formatting and the clock are outside the model. */
  datatype Formatters = Formatters(num: real -> string, date: Option<Js> -> string)

  // ---------------------------------------------------------------- truthiness and `||`

  predicate Truthy(v: Js) {
    match v
    case Undef => false
    case Null => false
    case Bool(b) => b
    case Num(n) => n != 0.0
    case Str(s) => s != ""
    case _ => true
  }

  /** `typeof v` */
  function TypeOf(v: Js): string {
    match v
    case Undef => "undefined"
    case Bool(_) => "boolean"
    case Num(_) => "number"
    case Str(_) => "string"
    case _ => "object"
  }

  /** `a || b` (a chain `a || b || c` is `Or(a, Or(b, c))`). */
  function Or(a: Js, b: Js): Js {
    if Truthy(a) then a else b
  }

  /** A precedence list: r is the first truthy value of vs, or `fallback` when none is truthy. */
  predicate FirstTruthy(vs: seq<Js>, fallback: Js, r: Js) {
    (exists i :: 0 <= i < |vs| && Truthy(vs[i]) && (forall j :: 0 <= j < i ==> !Truthy(vs[j])) && r == vs[i]) ||
    ((forall i :: 0 <= i < |vs| ==> !Truthy(vs[i])) && r == fallback)
  }

  /** `vs[0] || vs[1] || ... || fallback` */
  function Chain(vs: seq<Js>, fallback: Js): (r: Js)
    ensures FirstTruthy(vs, fallback, r)
  {
    if vs == [] then fallback
    else
      var rest := Chain(vs[1..], fallback);
      if Truthy(vs[0]) then vs[0]
      else
        assert forall i :: 1 <= i < |vs| ==> vs[i] == vs[1..][i - 1];
        if forall i :: 0 <= i < |vs[1..]| ==> !Truthy(vs[1..][i]) then rest
        else
          var i :| 0 <= i < |vs[1..]| && Truthy(vs[1..][i]) && (forall j :: 0 <= j < i ==> !Truthy(vs[1..][j])) && rest == vs[1..][i];
          assert Truthy(vs[i + 1]) && rest == vs[i + 1];
          rest
  }

  /** Putting the result of a chain in place of its first value leaves the result as it was. */
  lemma ChainAgain(vs: seq<Js>, fallback: Js)
    requires vs != [] && !Truthy(fallback)
    ensures Chain([Chain(vs, fallback)] + vs[1..], fallback) == Chain(vs, fallback)
  {
    var c := Chain(vs, fallback);
    var ws := [c] + vs[1..];
    assert ws[1..] == vs[1..];
    if !Truthy(c) {
      assert forall i :: 0 <= i < |vs[1..]| ==> vs[1..][i] == vs[i + 1];
      assert Chain(vs[1..], fallback) == fallback;
    }
  }

  /** `a ?? b` */
  function Nullish(a: Js, b: Js): Js {
    if a == Undef || a == Null then b else a
  }

  // ---------------------------------------------------------------- property access

  /** The value of the first field named k, or undefined. */
  function Lookup(fs: seq<Field>, k: string): Js
  {
    if fs == [] then Undef
    else if fs[0].key == k then fs[0].val
    else Lookup(fs[1..], k)
  }

  /** A missing key reads as undefined; any other value read comes from a field with that key. */
  lemma {:induction false} LookupFacts(fs: seq<Field>, k: string)
    ensures (forall i :: 0 <= i < |fs| ==> fs[i].key != k) ==> Lookup(fs, k) == Undef
    ensures Lookup(fs, k) != Undef ==> exists i :: 0 <= i < |fs| && fs[i].key == k && fs[i].val == Lookup(fs, k)
  {
    if fs != [] && fs[0].key != k {
      LookupFacts(fs[1..], k);
      assert forall i :: 1 <= i < |fs| ==> fs[i] == fs[1..][i - 1];
    }
  }

  /** The value of the first field named k. */
  lemma {:induction false} LookupAt(fs: seq<Field>, i: int, k: string)
    requires 0 <= i < |fs| && fs[i].key == k && forall j :: 0 <= j < i ==> fs[j].key != k
    ensures Lookup(fs, k) == fs[i].val
  {
    if i > 0 {
      assert fs[1..][i - 1] == fs[i];
      assert forall j :: 0 <= j < i - 1 ==> fs[1..][j] == fs[j + 1];
      LookupAt(fs[1..], i - 1, k);
    }
  }

  /** A key of the first part is looked up there; any other key in the appended part. */
  lemma {:induction false} LookupAppend(fs: seq<Field>, more: seq<Field>, k: string)
    ensures Lookup(fs + more, k) == if k in Keys(fs) then Lookup(fs, k) else Lookup(more, k)
  {
    if fs == [] {
      assert fs + more == more;
    } else {
      assert (fs + more)[0] == fs[0] && (fs + more)[1..] == fs[1..] + more;
      assert Keys(fs) == [fs[0].key] + Keys(fs[1..]);
      LookupAppend(fs[1..], more, k);
    }
  }

  /** `v[k]` for an own property; anything that is not a plain object has none of the keys used here. */
  function Get(v: Js, k: string): Js {
    if v.Obj? then Lookup(v.fields, k) else Undef
  }

  function Keys(fs: seq<Field>): (ks: seq<string>)
    ensures |ks| == |fs| && forall i :: 0 <= i < |fs| ==> ks[i] == fs[i].key
  {
    if fs == [] then [] else [fs[0].key] + Keys(fs[1..])
  }

  /** `o[k] = x` on an association list: replaces the value of an existing key in place, or appends the key. */
  function Put(fs: seq<Field>, k: string, x: Js): (r: seq<Field>)
    ensures Lookup(r, k) == x
    ensures forall k' :: k' != k ==> Lookup(r, k') == Lookup(fs, k')
    ensures k in Keys(fs) ==> |r| == |fs|
    ensures k !in Keys(fs) ==> r == fs + [Field(k, x)]
  {
    if fs == [] then [Field(k, x)]
    else if fs[0].key == k then [Field(k, x)] + fs[1..]
    else [fs[0]] + Put(fs[1..], k, x)
  }

  /** `{ ...v, [k]: x }` */
  function With(v: Js, k: string, x: Js): (r: Js)
    ensures r.Obj? && Get(r, k) == x
    ensures forall k' :: k' != k ==> Get(r, k') == Get(v, k')
  {
    Obj(Put(if v.Obj? then v.fields else [], k, x))
  }

  /** `s.findIndex(p)`: the first index satisfying p, or -1. */
  function FindIndex<T>(s: seq<T>, p: T -> bool): (i: int)
    ensures -1 <= i < |s|
    ensures i >= 0 ==> p(s[i]) && forall j :: 0 <= j < i ==> !p(s[j])
    ensures i == -1 <==> forall j :: 0 <= j < |s| ==> !p(s[j])
  {
    if s == [] then -1
    else if p(s[0]) then 0
    else
      var i := FindIndex(s[1..], p);
      assert forall j :: 1 <= j < |s| ==> s[j] == s[1..][j - 1];
      if i == -1 then -1 else i + 1
  }

  /** a is obtained from b by dropping elements, the rest kept in order. */
  predicate IsSubseq<T(==)>(a: seq<T>, b: seq<T>)
    decreases |b|
  {
    a == [] || (b != [] && ((a[0] == b[0] && IsSubseq(a[1..], b[1..])) || IsSubseq(a, b[1..])))
  }

  /** `s.filter(p)` */
  function Filter<T(==,!new)>(s: seq<T>, p: T -> bool): (r: seq<T>)
    ensures |r| <= |s|
    ensures forall x :: x in r <==> x in s && p(x)
    ensures IsSubseq(r, s)
  {
    if s == [] then []
    else
      var rest := Filter(s[1..], p);
      assert forall x :: x in s <==> x == s[0] || x in s[1..];
      if p(s[0]) then
        assert ([s[0]] + rest)[1..] == rest;
        [s[0]] + rest
      else rest
  }

  /** Filtering distributes over concatenation. */
  lemma {:induction false} FilterAppend<T(!new)>(a: seq<T>, b: seq<T>, p: T -> bool)
    ensures Filter(a + b, p) == Filter(a, p) + Filter(b, p)
  {
    if a == [] {
      assert a + b == b;
    } else {
      assert (a + b)[1..] == a[1..] + b;
      FilterAppend(a[1..], b, p);
    }
  }

  /** Nothing passes a filter that rejects every element. */
  lemma {:induction false} FilterNone<T(!new)>(s: seq<T>, p: T -> bool)
    requires forall i :: 0 <= i < |s| ==> !p(s[i])
    ensures Filter(s, p) == []
  {
    if s != [] {
      assert forall i :: 0 <= i < |s[1..]| ==> s[1..][i] == s[i + 1];
      FilterNone(s[1..], p);
    }
  }

  // ---------------------------------------------------------------- `===`

  /** Strict equality. Two object values are never identical here: the model has no references. */
  predicate StrictEq(a: Js, b: Js) {
    match (a, b)
    case (Undef, Undef) => true
    case (Null, Null) => true
    case (Bool(x), Bool(y)) => x == y
    case (Num(x), Num(y)) => x == y
    case (Str(x), Str(y)) => x == y
    case _ => false
  }

  // ---------------------------------------------------------------- String(v)

  function ToStr(v: Js, f: Formatters): string
    decreases v, 1
  {
    match v
    case Undef => "undefined"
    case Null => "null"
    case Bool(b) => if b then "true" else "false"
    case Num(n) => f.num(n)
    case Str(s) => s
    case Arr(items) => JoinItems(v, 0, f)
    case Obj(_) => "[object Object]"
    case Date(a) => f.date(a)
  }

  /** `Array.prototype.join(",")` from index i, null and undefined printing as "". */
  function JoinItems(v: Js, i: nat, f: Formatters): string
    requires v.Arr? && i <= |v.items|
    decreases v, 0, |v.items| - i
  {
    if i == |v.items| then ""
    else
      var x := v.items[i];
      var s := if x == Undef || x == Null then "" else ToStr(x, f);
      if i + 1 == |v.items| then s else s + "," + JoinItems(v, i + 1, f)
  }

  // ---------------------------------------------------------------- Number(v)

  /** `Number(v)`; None stands for NaN. Strings are read as optional whitespace around plain decimal
      digits. An array is read through its `join(",")`: empty it is 0, with one element it is
      `Number(String(element))`, and longer its text holds a comma and reads as NaN. A date's time
      value is not modelled and reads as NaN. */
  function ToNumber(v: Js): Option<real>
    decreases v, 0
  {
    match v
    case Undef => None
    case Null => Some(0.0)
    case Bool(b) => Some(if b then 1.0 else 0.0)
    case Num(n) => Some(n)
    case Str(s) => StrToNumber(s)
    case Arr(items) => if items == [] then Some(0.0) else if |items| == 1 then SoleToNumber(items[0]) else None
    case Obj(_) => None
    case Date(_) => None
  }

  /** `Number(String(x))` for the element of a one-element array: `null` and `undefined` print as the
      empty string, a number prints so that it reads back as itself, `true`, `false` and
      `[object Object]` read as NaN. */
  function SoleToNumber(x: Js): Option<real>
    decreases x, 1
  {
    match x
    case Undef => Some(0.0)
    case Null => Some(0.0)
    case Bool(_) => None
    case Num(n) => Some(n)
    case Str(s) => StrToNumber(s)
    case Arr(_) => ToNumber(x)
    case Obj(_) => None
    case Date(_) => None
  }

  function StrToNumber(s: string): (r: Option<real>)
    ensures Trim(s) == "" ==> r == Some(0.0)
    ensures AllDigits(Trim(s)) ==> r == Some(DigitsValue(Trim(s)) as real)
  {
    var t := Trim(s);
    if t == "" then Some(0.0)
    else if AllDigits(t) then Some(DigitsValue(t) as real)
    else None
  }

  // ---------------------------------------------------------------- characters and strings

  /** The characters `String.prototype.trim` removes: WhiteSpace and LineTerminator of ECMA-262. */
  predicate IsSpace(c: char) {
    c == ' ' || c == '\t' || c == '\n' || c == '\r' || c == '\U{000B}' || c == '\U{000C}' ||
    c == '\U{00A0}' || c == '\U{1680}' || ('\U{2000}' <= c <= '\U{200A}') || c == '\U{2028}' ||
    c == '\U{2029}' || c == '\U{202F}' || c == '\U{205F}' || c == '\U{3000}' || c == '\U{FEFF}'
  }

  predicate AllSpace(s: string) {
    forall i :: 0 <= i < |s| ==> IsSpace(s[i])
  }

  function TrimStart(s: string): (r: string)
    ensures |r| <= |s| && r == s[|s| - |r|..]
    ensures r == "" || !IsSpace(r[0])
    ensures AllSpace(s[..|s| - |r|])
  {
    if s == [] || !IsSpace(s[0]) then s
    else
      var r := TrimStart(s[1..]);
      assert s[..|s| - |r|] == [s[0]] + s[1..][..|s| - 1 - |r|];
      r
  }

  function TrimEnd(s: string): (r: string)
    ensures |r| <= |s| && r == s[..|r|]
    ensures r == "" || !IsSpace(r[|r| - 1])
    ensures AllSpace(s[|r|..])
  {
    if s == [] || !IsSpace(s[|s| - 1]) then s
    else
      var r := TrimEnd(s[..|s| - 1]);
      assert s[|r|..] == s[..|s| - 1][|r|..] + [s[|s| - 1]];
      r
  }

  /** `s.trim()` */
  function Trim(s: string): (r: string)
    ensures r == "" || (!IsSpace(r[0]) && !IsSpace(r[|r| - 1]))
  {
    TrimEnd(TrimStart(s))
  }

  /** A string trims to "" exactly when it is made of white space only. */
  lemma TrimEmptyIff(s: string)
    ensures Trim(s) == "" <==> AllSpace(s)
  {
    var t := TrimStart(s);
    if Trim(s) == "" {
      assert t == "";
      assert s[..|s|] == s;
    } else {
      var r := Trim(s);
      assert r == t[..|r|];
      assert t[0] == s[|s| - |t|];
    }
  }

  function LowerChar(c: char): char {
    if 'A' <= c <= 'Z' then (c as int + 32) as char else c
  }

  /** `s.toLowerCase()` on the ASCII letters. */
  function ToLower(s: string): (r: string)
    ensures |r| == |s| && forall i :: 0 <= i < |s| ==> r[i] == LowerChar(s[i])
  {
    if s == [] then [] else [LowerChar(s[0])] + ToLower(s[1..])
  }

  /** Lower-casing twice is lower-casing once. */
  lemma ToLowerIdempotent(s: string)
    ensures ToLower(ToLower(s)) == ToLower(s)
  {
    assert forall i :: 0 <= i < |s| ==> LowerChar(LowerChar(s[i])) == LowerChar(s[i]);
  }

  /** `sub` occurs in `s` at position i. */
  predicate OccursAt(s: string, sub: string, i: int) {
    0 <= i && i + |sub| <= |s| && s[i..i + |sub|] == sub
  }

  /** `s.includes(sub)` */
  predicate Contains(s: string, sub: string) {
    exists i :: 0 <= i <= |s| && OccursAt(s, sub, i)
  }

  /** A computed `includes`, proved equal to the definition above. */
  function Includes(s: string, sub: string): (r: bool)
    ensures r <==> Contains(s, sub)
    decreases |s|
  {
    if sub <= s then
      assert OccursAt(s, sub, 0);
      true
    else if |s| <= |sub| then
      assert forall i :: !OccursAt(s, sub, i) by {
        forall i ensures !OccursAt(s, sub, i) {
          if 0 <= i && i + |sub| <= |s| { assert s[i..i + |sub|] == s[..|sub|]; }
        }
      }
      false
    else
      var r := Includes(s[1..], sub);
      assert forall i :: i >= 1 ==> (OccursAt(s, sub, i) <==> OccursAt(s[1..], sub, i - 1)) by {
        forall i | i >= 1 ensures OccursAt(s, sub, i) <==> OccursAt(s[1..], sub, i - 1) {
          if i + |sub| <= |s| { SliceOfTail(s, i - 1, i - 1 + |sub|); }
        }
      }
      assert !OccursAt(s, sub, 0);
      assert r ==> Contains(s, sub) by {
        if r {
          var j :| 0 <= j <= |s[1..]| && OccursAt(s[1..], sub, j);
          SliceOfTail(s, j, j + |sub|);
          assert OccursAt(s, sub, j + 1);
        }
      }
      r
  }

  lemma SliceOfTail(s: string, a: int, b: int)
    requires 0 <= a <= b <= |s| - 1
    ensures s[1..][a..b] == s[a + 1..b + 1]
  {
    assert |s[1..][a..b]| == |s[a + 1..b + 1]|;
    forall k | 0 <= k < b - a ensures s[1..][a..b][k] == s[a + 1..b + 1][k] { }
  }

  /** `s.startsWith(p)` */
  predicate StartsWith(s: string, p: string) {
    p <= s
  }

  /** `s.replace(/\/$/, "")`: drops a single trailing slash. */
  function StripTrailingSlash(s: string): (r: string)
    ensures s != "" && s[|s| - 1] == '/' ==> r == s[..|s| - 1]
    ensures !(s != "" && s[|s| - 1] == '/') ==> r == s
  {
    if s != "" && s[|s| - 1] == '/' then s[..|s| - 1] else s
  }

  /** `s.replace(/x/g, y)` for single characters. */
  function ReplaceChar(s: string, x: char, y: char): (r: string)
    ensures |r| == |s| && forall i :: 0 <= i < |s| ==> r[i] == (if s[i] == x then y else s[i])
  {
    if s == [] then [] else [if s[0] == x then y else s[0]] + ReplaceChar(s[1..], x, y)
  }

  // ---------------------------------------------------------------- split and join

  /** `s.split(sep)` where sep matches any single character of `seps` (a one-character string or a
      character class). */
  function Split(s: string, seps: set<char>): (parts: seq<string>)
    ensures |parts| >= 1
    ensures forall i, j :: 0 <= i < |parts| && 0 <= j < |parts[i]| ==> parts[i][j] !in seps
  {
    if s == [] then [""]
    else
      var rest := Split(s[1..], seps);
      if s[0] in seps then [""] + rest else [[s[0]] + rest[0]] + rest[1..]
  }

  predicate NoneIn(s: string, seps: set<char>) {
    forall i :: 0 <= i < |s| ==> s[i] !in seps
  }

  /** A string without separators is one part. */
  lemma {:induction false} SplitNone(a: string, seps: set<char>)
    requires NoneIn(a, seps)
    ensures Split(a, seps) == [a]
  {
    if a != [] {
      assert NoneIn(a[1..], seps) by {
        forall i | 0 <= i < |a[1..]| ensures a[1..][i] !in seps { assert a[1..][i] == a[i + 1]; }
      }
      SplitNone(a[1..], seps);
      assert a == [a[0]] + a[1..];
    }
  }

  /** Splitting at a separator that follows a separator-free prefix. */
  lemma {:induction false} SplitAt(a: string, c: char, b: string, seps: set<char>)
    requires NoneIn(a, seps) && c in seps
    ensures Split(a + [c] + b, seps) == [a] + Split(b, seps)
  {
    if a == [] {
      assert a + [c] + b == [c] + b;
      assert ([c] + b)[1..] == b;
    } else {
      assert (a + [c] + b)[1..] == a[1..] + [c] + b;
      SplitAt(a[1..], c, b, seps);
      assert a == [a[0]] + a[1..];
    }
  }

  /** Three separator-free parts joined by separators split back into those parts. */
  lemma SplitThree(a: string, b: string, c: string, x: char, y: char, seps: set<char>)
    requires NoneIn(a, seps) && NoneIn(b, seps) && NoneIn(c, seps) && x in seps && y in seps
    ensures Split(a + [x] + b + [y] + c, seps) == [a, b, c]
  {
    assert a + [x] + b + [y] + c == a + [x] + (b + [y] + c);
    SplitAt(a, x, b + [y] + c, seps);
    SplitAt(b, y, c, seps);
    SplitNone(c, seps);
  }

  /** A string without white space trims to itself. */
  lemma TrimNoSpace(s: string)
    requires forall i :: 0 <= i < |s| ==> !IsSpace(s[i])
    ensures Trim(s) == s
  {
    assert TrimStart(s) == s;
    assert TrimEnd(s) == s;
  }

  /** Trimming only removes characters from the ends. */
  lemma TrimChars(s: string)
    ensures forall j :: 0 <= j < |Trim(s)| ==> Trim(s)[j] in s
  {
    var t := TrimStart(s);
    var r := TrimEnd(t);
    forall j | 0 <= j < |r| ensures r[j] in s {
      assert r[j] == t[j];
      assert t[j] == s[|s| - |t| + j];
    }
  }

  function Join(parts: seq<string>, sep: string): string {
    if parts == [] then "" else if |parts| == 1 then parts[0] else parts[0] + sep + Join(parts[1..], sep)
  }

  /** Splitting on a single character and joining with it gives the string back. */
  lemma {:induction false} SplitJoin(s: string, c: char)
    ensures Join(Split(s, {c}), [c]) == s
  {
    if s != [] {
      SplitJoin(s[1..], c);
      var rest := Split(s[1..], {c});
      if s[0] != c {
        if |rest| == 1 { } else {
          assert rest == [rest[0]] + rest[1..];
          assert Join(rest, [c]) == rest[0] + [c] + Join(rest[1..], [c]);
        }
      }
    }
  }

  /** The number of parts is one more than the number of separators. */
  function CountChar(s: string, c: char): nat {
    if s == [] then 0 else (if s[0] == c then 1 else 0) + CountChar(s[1..], c)
  }

  lemma {:induction false} SplitCount(s: string, c: char)
    ensures |Split(s, {c})| == CountChar(s, c) + 1
  {
    if s != [] { SplitCount(s[1..], c); }
  }

  // ---------------------------------------------------------------- decimal numerals

  predicate IsDigit(c: char) { '0' <= c <= '9' }

  predicate AllDigits(s: string) {
    forall i :: 0 <= i < |s| ==> IsDigit(s[i])
  }

  /** The value of a string of decimal digits (the empty string reads as 0). */
  function DigitsValue(s: string): nat
    requires AllDigits(s)
  {
    if s == [] then 0 else DigitsValue(s[..|s| - 1]) * 10 + (s[|s| - 1] as int - '0' as int)
  }

  /** The shortest decimal numeral of n, as `String(n)` writes a non-negative integer. */
  function NatToDecimal(n: nat): (s: string)
    ensures |s| >= 1 && AllDigits(s)
    ensures |s| > 1 ==> s[0] != '0'
  {
    if n < 10 then [('0' as int + n) as char]
    else NatToDecimal(n / 10) + [('0' as int + n % 10) as char]
  }

  lemma {:induction false} DecimalRoundTrip(n: nat)
    ensures DigitsValue(NatToDecimal(n)) == n
  {
    if n >= 10 {
      DecimalRoundTrip(n / 10);
      var s := NatToDecimal(n);
      assert s[..|s| - 1] == NatToDecimal(n / 10);
    }
  }

  /** Distinct numbers have distinct numerals. */
  lemma DecimalInjective(m: nat, n: nat)
    requires NatToDecimal(m) == NatToDecimal(n)
    ensures m == n
  {
    DecimalRoundTrip(m);
    DecimalRoundTrip(n);
  }

  /** A numeral reads back as its number. */
  lemma NumeralNumber(n: nat)
    ensures StrToNumber(NatToDecimal(n)) == Some(n as real)
  {
    var s := NatToDecimal(n);
    assert forall i :: 0 <= i < |s| ==> !IsSpace(s[i]);
    TrimNoSpace(s);
    DecimalRoundTrip(n);
  }
}
