/** The stateful JSON writer, and the pretty-printer it amounts to. */
module JsonWriter {

  // ----- trees and their serialisation -----

  datatype Kind = OBJ | ARR

  datatype Scalar = Str(s: string) | Int(i: int) | Bool(b: bool) | Null

  datatype Json = Leaf(scalar: Scalar) | Node(kind: Kind, members: Members)

  /** Members of an object, elements of an array, or a row of top-level values. A name may
      be empty anywhere; `early` says that it was written by a call of its own, before
      the value's. */
  datatype Members = Nil | Cons(name: string, early: bool, value: Json, rest: Members)

  function Spaces(n: nat): (s: string)
    ensures |s| == n
  {
    seq(n, _ => ' ')
  }

  /** Indentation is twice the depth. */
  function Indent(depth: nat): string { Spaces(2 * depth) }

  function Digits(n: nat): string {
    if n < 10 then [['0', '1', '2', '3', '4', '5', '6', '7', '8', '9'][n]]
    else Digits(n / 10) + Digits(n % 10)
  }

  /** The number a row of digits denotes. */
  function Denoted(s: string): nat {
    if s == "" then 0 else 10 * Denoted(s[..|s| - 1]) + DigitOf(s[|s| - 1])
  }

  function DigitOf(c: char): nat { if '0' <= c <= '9' then (c as int - '0' as int) else 0 }

  /** Numbers print in digits that denote them, without leading zeros. */
  lemma {:induction false} DigitsDenote(n: nat)
    ensures Denoted(Digits(n)) == n && Digits(n) != ""
    ensures forall i :: 0 <= i < |Digits(n)| ==> '0' <= Digits(n)[i] <= '9'
    ensures n > 0 ==> Digits(n)[0] != '0'
  {
    hide Digits, Denoted;
    if n < 10 {
      OneDigitDenotes(n);
    } else {
      DigitsDenote(n / 10);
      OneDigitDenotes(n % 10);
      var front, last := Digits(n / 10), Digits(n % 10);
      MoreDigits(n);
      DenotedStep(front + last);
      assert (front + last)[..|front|] == front;
    }
  }

  lemma MoreDigits(n: nat)
    requires n >= 10
    ensures Digits(n) == Digits(n / 10) + Digits(n % 10)
  {
  }

  lemma {:induction false} OneDigitDenotes(n: nat)
    requires n < 10
    ensures |Digits(n)| == 1 && '0' <= Digits(n)[0] <= '9' && DigitOf(Digits(n)[0]) == n && Denoted(Digits(n)) == n
    ensures n > 0 ==> Digits(n)[0] != '0'
  {
    assert Digits(n)[..0] == "";
  }

  function Decimal(i: int): string { if i < 0 then "-" + Digits(-i) else Digits(i) }

  /** Digits without leading zeros that denote n. */
  predicate Numeral(s: string, n: nat) {
    && s != "" && Denoted(s) == n && (forall i | 0 <= i < |s| :: '0' <= s[i] <= '9')
    && (s[0] == '0' ==> s == "0")
  }

  /** Such digits, behind a minus sign if the number is negative. */
  predicate SignedNumeral(s: string, i: int) {
    if i >= 0 then Numeral(s, i) else s != "" && s[0] == '-' && Numeral(s[1..], -i)
  }

  lemma {:induction false} DecimalIsNumeral(i: int)
    ensures SignedNumeral(Decimal(i), i)
  {
    hide Digits, Denoted;
    DigitsDenote(if i < 0 then -i else i);
    if i == 0 {
      ZeroDigit();
    } else if i < 0 {
      assert Decimal(i)[1..] == Digits(-i);
    }
  }

  lemma ZeroDigit()
    ensures Digits(0) == "0"
  {
  }

  /** A number has one such text, and a text stands for one number. */
  lemma {:induction false} NumeralsAgree(s: string, i: int, t: string, j: int)
    requires SignedNumeral(s, i) && SignedNumeral(t, j)
    ensures s == t <==> i == j
  {
    hide Denoted, Numeral;
    if s == t {
      SameNumber(s, i, j);
    }
    if i == j {
      if i >= 0 {
        SameDigits(s, t, i);
      } else {
        SameDigits(s[1..], t[1..], -i);
        assert s == [s[0]] + s[1..] && t == [t[0]] + t[1..];
      }
    }
  }

  lemma SameNumber(s: string, i: int, j: int)
    requires SignedNumeral(s, i) && SignedNumeral(s, j)
    ensures i == j
  {
    hide Denoted;
  }

  lemma {:induction false} SameDigits(s: string, t: string, n: nat)
    requires Numeral(s, n) && Numeral(t, n)
    ensures s == t
    decreases |s|
  {
    hide Denoted;
    DenotedStep(s);
    DenotedStep(t);
    if |s| == 1 || |t| == 1 {
      OneDigit(s, n);
      OneDigit(t, n);
    } else {
      assert s[..|s| - 1][0] == s[0] && t[..|t| - 1][0] == t[0];
      SameDigits(s[..|s| - 1], t[..|t| - 1], n / 10);
    }
    assert s == s[..|s| - 1] + [s[|s| - 1]] && t == t[..|t| - 1] + [t[|t| - 1]];
  }

  lemma DenotedStep(s: string)
    requires s != ""
    ensures Denoted(s) == 10 * Denoted(s[..|s| - 1]) + DigitOf(s[|s| - 1])
  {
  }

  /** The numbers below 10 are those of one digit. */
  lemma {:induction false} OneDigit(s: string, n: nat)
    requires Numeral(s, n)
    ensures |s| == 1 <==> n < 10
  {
    hide Denoted;
    DenotedStep(s);
    if |s| == 1 {
      assert s[..0] == "";
      assert Denoted("") == 0 by { DenotedNothing(); }
    } else {
      PositivePrefix(s[..|s| - 1]);
    }
  }

  lemma DenotedNothing()
    ensures Denoted("") == 0
  {
  }

  lemma {:induction false} PositivePrefix(s: string)
    requires s != "" && s[0] != '0' && forall i | 0 <= i < |s| :: '0' <= s[i] <= '9'
    ensures Denoted(s) > 0
    decreases |s|
  {
    hide Denoted;
    DenotedStep(s);
    if |s| > 1 {
      assert s[..|s| - 1][0] == s[0];
      PositivePrefix(s[..|s| - 1]);
    }
  }

  function Text(v: Scalar): string {
    match v
    case Str(s) => "\"" + s + "\""
    case Int(i) => Decimal(i)
    case Bool(b) => if b then "true" else "false"
    case Null => "null"
  }

  function Key(name: string): string { if name == "" then "" else "\"" + name + "\": " }

  function OpenMark(k: Kind): string { if k == OBJ then "{" else "[" }

  function CloseMark(k: Kind): string { if k == OBJ then "}" else "]" }

  function Join(lines: seq<string>, sep: string): string {
    if lines == [] then ""
    else if |lines| == 1 then lines[0]
    else lines[0] + sep + Join(lines[1..], sep)
  }

  function Print(j: Json, depth: nat): string {
    match j
    case Leaf(v) => Text(v)
    case Node(k, ms) =>
      OpenMark(k)
      + (if ms == Nil then "" else "\n" + Join(Lines(ms, depth + 1), ",\n"))
      + "\n" + Indent(depth) + CloseMark(k)
  }

  /** One indented line, or block of lines, per member. */
  function Lines(ms: Members, depth: nat): (r: seq<string>)
    ensures r == [] <==> ms == Nil
  {
    match ms
    case Nil => []
    case Cons(name, _, v, rest) => [Indent(depth) + Key(name) + Print(v, depth)] + Lines(rest, depth)
  }

  // ----- the writer's state -----

  datatype Separator = COMMA | NEWLINE | NONE

  datatype State = State(buffer: string, ident: string, sep: Separator)

  const START := State("", "", NONE)

  /** What the public methods are asked to do. */
  datatype Call =
    | Name(name: string)
    | Write(name: string, v: Scalar)
    | Enter(name: string, kind: Kind)
    | Leave(kind: Kind)

  function Separation(sep: Separator): string {
    match sep
    case COMMA => ",\n"
    case NEWLINE => "\n"
    case NONE => ""
  }

  function Lead(st: State): string {
    Separation(st.sep) + if st.sep != NONE then st.ident else ""
  }

  function Named(st: State, name: string): State {
    State(st.buffer + Lead(st) + Key(name), st.ident, NONE)
  }

  /** Closing a container that was never opened erases from an empty string, which throws. */
  datatype Outcome = Done(st: State) | Threw(st: State)

  /** What a call leaves. */
  function Step(st: State, c: Call): Outcome {
    match c
    case Name(name) => Done(Named(st, name))
    case Write(name, v) => Done(State(Named(st, name).buffer + Text(v), st.ident, COMMA))
    case Enter(name, k) => Done(State(Named(st, name).buffer + OpenMark(k), st.ident + "  ", NEWLINE))
    case Leave(k) =>
      if |st.ident| < 2 then Threw(st) else Done(Closed(st, st.ident[..|st.ident| - 2], k))
  }

  function Closed(st: State, outer: string, k: Kind): State {
    State(st.buffer + "\n" + outer + CloseMark(k), outer, COMMA)
  }

  /** What a run of calls leaves, up to the first that throws. */
  function Run(st: State, calls: seq<Call>): Outcome
    decreases |calls|
  {
    if calls == [] then Done(st)
    else
      var o := Step(st, calls[0]);
      if o.Threw? then o else Run(o.st, calls[1..])
  }

  class Writer {
    var buffer: string
    var ident: string
    var sep: Separator

    function Now(): State
      reads this
    {
      State(buffer, ident, sep)
    }

    constructor ()
      ensures Now() == START
    {
      buffer, ident, sep := "", "", NONE;
    }

    method WriteFieldname(name: string)
      modifies this
      ensures Now() == Named(old(Now()), name)
      ensures buffer == old(buffer) + (
                          match old(sep) case COMMA => ",\n" + ident case NEWLINE => "\n" + ident case NONE => "")
                        + if name == "" then "" else "\"" + name + "\": "
      ensures ident == old(ident) && sep == NONE
    {
      buffer := buffer + (Separation(sep) + if sep != NONE then ident else "");
      buffer := buffer + Key(name);
      sep := NONE;
    }

    method WriteStr(name: string, value: string)
      modifies this
      ensures Done(Now()) == Step(old(Now()), Write(name, Str(value)))
      ensures buffer == Named(old(Now()), name).buffer + ("\"" + value + "\"")
    {
      hide Named, Decimal;
      WriteFieldname(name);
      Quoted(buffer, value);
      buffer := buffer + "\"" + value + "\"";
      sep := COMMA;
    }

    method WriteInt(name: string, value: int)
      modifies this
      ensures Done(Now()) == Step(old(Now()), Write(name, Int(value)))
      ensures var named := Named(old(Now()), name).buffer;
              named <= buffer && SignedNumeral(buffer[|named|..], value)
    {
      DecimalIsNumeral(value);
      WriteFieldname(name);
      buffer := buffer + Decimal(value);
      sep := COMMA;
    }

    method WriteBool(name: string, value: bool)
      modifies this
      ensures Done(Now()) == Step(old(Now()), Write(name, Bool(value)))
      ensures buffer == Named(old(Now()), name).buffer + if value then "true" else "false"
    {
      WriteFieldname(name);
      buffer := buffer + if value then "true" else "false";
      sep := COMMA;
    }

    method WriteNull(name: string)
      modifies this
      ensures Done(Now()) == Step(old(Now()), Write(name, Null))
      ensures buffer == Named(old(Now()), name).buffer + "null"
    {
      WriteFieldname(name);
      buffer := buffer + "null";
      sep := COMMA;
    }

    method StartObj(name: string)
      modifies this
      ensures Done(Now()) == Step(old(Now()), Enter(name, OBJ))
      ensures buffer == Named(old(Now()), name).buffer + "{" && ident == old(ident) + "  "
    {
      WriteFieldname(name);
      buffer := buffer + "{";
      ident := ident + "  ";
      sep := NEWLINE;
    }

    method EndObj() returns (ok: bool)
      modifies this
      ensures Step(old(Now()), Leave(OBJ)) == if ok then Done(Now()) else Threw(Now())
      ensures ok == (|old(ident)| >= 2)
      ensures ok ==> old(ident)[..|old(ident)| - 2] == ident && buffer == old(buffer) + ("\n" + ident + "}")
    {
      if |ident| < 2 {
        return false;
      }
      ident := ident[..|ident| - 2];
      buffer := buffer + "\n" + ident + "}";
      sep := COMMA;
      ok := true;
    }

    method StartArray(name: string)
      modifies this
      ensures Done(Now()) == Step(old(Now()), Enter(name, ARR))
      ensures buffer == Named(old(Now()), name).buffer + "[" && ident == old(ident) + "  "
    {
      WriteFieldname(name);
      buffer := buffer + "[";
      ident := ident + "  ";
      sep := NEWLINE;
    }

    method EndArray() returns (ok: bool)
      modifies this
      ensures Step(old(Now()), Leave(ARR)) == if ok then Done(Now()) else Threw(Now())
      ensures ok == (|old(ident)| >= 2)
      ensures ok ==> old(ident)[..|old(ident)| - 2] == ident && buffer == old(buffer) + ("\n" + ident + "]")
    {
      if |ident| < 2 {
        return false;
      }
      ident := ident[..|ident| - 2];
      buffer := buffer + "\n" + ident + "]";
      sep := COMMA;
      ok := true;
    }

    method MakeCall(c: Call) returns (ok: bool)
      modifies this
      ensures Step(old(Now()), c) == if ok then Done(Now()) else Threw(Now())
    {
      ok := true;
      match c
      case Name(name) => WriteFieldname(name);
      case Write(name, Str(s)) => WriteStr(name, s);
      case Write(name, Int(i)) => WriteInt(name, i);
      case Write(name, Bool(b)) => WriteBool(name, b);
      case Write(name, Null) => WriteNull(name);
      case Enter(name, OBJ) => StartObj(name);
      case Enter(name, ARR) => StartArray(name);
      case Leave(OBJ) => ok := EndObj();
      case Leave(ARR) => ok := EndArray();
    }

    /** Makes the calls one after the other, up to the first that throws. */
    method MakeCalls(calls: seq<Call>) returns (ok: bool)
      modifies this
      ensures Run(old(Now()), calls) == if ok then Done(Now()) else Threw(Now())
    {
      hide Step;
      ok := true;
      for i := 0 to |calls|
        invariant Run(Now(), calls[i..]) == Run(old(Now()), calls)
      {
        assert calls[i..][0] == calls[i] && calls[i..][1..] == calls[i + 1..];
        ok := MakeCall(calls[i]);
        if !ok {
          return;
        }
      }
    }
  }

  // ----- a tree as calls -----

  function ValueCalls(name: string, v: Json): seq<Call>
    decreases v
  {
    match v
    case Leaf(s) => [Write(name, s)]
    case Node(k, ms) => [Enter(name, k)] + CallsOf(ms) + [Leave(k)]
  }

  function CallsOf(ms: Members): seq<Call>
    decreases ms
  {
    match ms
    case Nil => []
    case Cons(name, early, v, rest) =>
      (if early then [Name(name)] + ValueCalls("", v) else ValueCalls(name, v)) + CallsOf(rest)
  }

  lemma {:induction false} RunOne(st: State, c: Call)
    ensures Run(st, [c]) == Step(st, c)
  {
    hide Step;
    assert [c][1..] == [];
  }

  lemma {:induction false} RunAppend(st: State, a: seq<Call>, b: seq<Call>)
    ensures Run(st, a + b) == if Run(st, a).Done? then Run(Run(st, a).st, b) else Run(st, a)
    decreases |a|
  {
    hide Step;
    if a == [] {
      assert a + b == b;
    } else {
      assert (a + b)[0] == a[0] && (a + b)[1..] == a[1..] + b;
      if Step(st, a[0]).Done? {
        RunAppend(Step(st, a[0]).st, a[1..], b);
      }
    }
  }

  lemma RunThen(st: State, a: seq<Call>, mid: State, b: seq<Call>)
    requires Run(st, a) == Done(mid)
    ensures Run(st, a + b) == Run(mid, b)
  {
    hide *;
    RunAppend(st, a, b);
  }

  /** The state once a value has been written under a name. */
  function Valued(st: State, name: string, v: Json, depth: nat): State {
    State(st.buffer + Lead(st) + Key(name) + Print(v, depth), st.ident, COMMA)
  }

  /** The state once a row of members has been written. */
  function Listed(st: State, ms: Members, depth: nat): State {
    if ms == Nil then st
    else State(st.buffer + Separation(st.sep) + Join(Lines(ms, depth), ",\n"), st.ident, COMMA)
  }

  /** The depth the indentation stands for; only the outermost row may start with neither a
      comma nor a new line. */
  predicate AtDepth(st: State, depth: nat) {
    st.ident == Indent(depth) && (st.sep == NONE ==> depth == 0)
  }

  lemma {:induction false} RunLeaf(st: State, name: string, v: Scalar, depth: nat)
    ensures Run(st, ValueCalls(name, Leaf(v))) == Done(Valued(st, name, Leaf(v), depth))
  {
    hide Run, Text, Key, Lead;
    RunOne(st, Write(name, v));
  }

  lemma OneLine(line: string)
    ensures Join([line], ",\n") == line
  {
  }

  lemma MoreLines(line: string, lines: seq<string>)
    requires lines != []
    ensures Join([line] + lines, ",\n") == line + ",\n" + Join(lines, ",\n")
  {
    assert ([line] + lines)[1..] == lines;
  }

  lemma IndentStep(depth: nat)
    ensures Indent(depth) + "  " == Indent(depth + 1)
    ensures Indent(depth + 1)[..2 * depth] == Indent(depth)
    ensures |Indent(depth)| == 2 * depth
  {
  }

  lemma IndentNothing()
    ensures Indent(0) == ""
  {
  }

  /** The state just inside a container. */
  function Inside(st: State, name: string, k: Kind): State {
    State(st.buffer + Lead(st) + Key(name) + OpenMark(k), st.ident + "  ", NEWLINE)
  }

  lemma RunLeave(st: State, k: Kind, depth: nat)
    requires st.ident == Indent(depth + 1)
    ensures Run(st, [Leave(k)]) == Done(Closed(st, Indent(depth), k))
  {
    hide Run, Indent, Closed;
    RunOne(st, Leave(k));
    IndentStep(depth);
    IndentStep(depth + 1);
  }

  lemma RunContainer(st: State, name: string, k: Kind, inner: seq<Call>, mid: State, depth: nat)
    requires Run(Inside(st, name, k), inner) == Done(mid) && mid.ident == Indent(depth + 1)
    ensures Run(st, [Enter(name, k)] + inner + [Leave(k)]) == Done(Closed(mid, Indent(depth), k))
  {
    hide Run, Indent, Key, Lead, OpenMark, Closed;
    RunOne(st, Enter(name, k));
    RunThen(st, [Enter(name, k)], Inside(st, name, k), inner);
    RunLeave(mid, k, depth);
    RunThen(st, [Enter(name, k)] + inner, mid, [Leave(k)]);
  }

  lemma Quoted(before: string, value: string)
    ensures before + "\"" + value + "\"" == before + ("\"" + value + "\"")
  {
  }

  lemma Regroup(before: string, mark: string, inner: string, close: string)
    ensures before + mark + inner + close == before + (mark + inner + close)
  {
  }

  /** What a container's members put between its marks. */
  function Within(ms: Members, depth: nat): string {
    if ms == Nil then "" else "\n" + Join(Lines(ms, depth), ",\n")
  }

  lemma InsideText(st: State, name: string, k: Kind, ms: Members, depth: nat)
    ensures Listed(Inside(st, name, k), ms, depth).buffer
         == st.buffer + Lead(st) + Key(name) + OpenMark(k) + Within(ms, depth)
  {
    hide Join, Lines, Lead, Key, OpenMark;
    var before := st.buffer + Lead(st) + Key(name) + OpenMark(k);
    assert before + "" == before;
    assert before + "\n" + Join(Lines(ms, depth), ",\n") == before + ("\n" + Join(Lines(ms, depth), ",\n"));
  }

  lemma PrintNode(k: Kind, ms: Members, depth: nat)
    ensures Print(Node(k, ms), depth)
         == OpenMark(k) + Within(ms, depth + 1) + ("\n" + Indent(depth) + CloseMark(k))
  {
    hide Join, Lines, OpenMark, CloseMark, Indent;
    var inner := OpenMark(k) + Within(ms, depth + 1);
    assert inner + "\n" + Indent(depth) + CloseMark(k) == inner + ("\n" + Indent(depth) + CloseMark(k));
  }

  lemma ClosedText(st: State, outer: string, k: Kind)
    ensures Closed(st, outer, k) == State(st.buffer + ("\n" + outer + CloseMark(k)), outer, COMMA)
  {
    hide CloseMark;
    assert st.buffer + "\n" + outer + CloseMark(k) == st.buffer + ("\n" + outer + CloseMark(k));
  }

  lemma ContainerText(st: State, name: string, k: Kind, ms: Members, depth: nat)
    requires st.ident == Indent(depth)
    ensures Closed(Listed(Inside(st, name, k), ms, depth + 1), Indent(depth), k) == Valued(st, name, Node(k, ms), depth)
  {
    hide Listed, Closed, Inside, Print, Lead, Key, OpenMark, CloseMark, Within, Indent;
    PrintNode(k, ms, depth);
    InsideText(st, name, k, ms, depth + 1);
    ClosedText(Listed(Inside(st, name, k), ms, depth + 1), Indent(depth), k);
    Regroup(st.buffer + Lead(st) + Key(name), OpenMark(k), Within(ms, depth + 1),
            "\n" + Indent(depth) + CloseMark(k));
  }

  /** Writing a value prints it, whatever it holds, and leaves the indentation as it was. */
  lemma {:induction false} RunValue(st: State, name: string, v: Json, depth: nat)
    requires st.ident == Indent(depth)
    ensures Run(st, ValueCalls(name, v)) == Done(Valued(st, name, v, depth))
    decreases v
  {
    hide Run, Indent, Valued, Listed, Closed, Key, Lead, OpenMark;
    match v
    case Leaf(s) => RunLeaf(st, name, s, depth);
    case Node(k, ms) =>
      var inside := Inside(st, name, k);
      IndentStep(depth);
      RunMembers(inside, ms, depth + 1);
      ListedIdent(inside, ms, depth + 1);
      RunContainer(st, name, k, CallsOf(ms), Listed(inside, ms, depth + 1), depth);
      ContainerText(st, name, k, ms, depth);
  }

  lemma ListedIdent(st: State, ms: Members, depth: nat)
    ensures Listed(st, ms, depth).ident == st.ident
  {
  }

  function MemberCalls(name: string, early: bool, v: Json): seq<Call> {
    if early then [Name(name)] + ValueCalls("", v) else ValueCalls(name, v)
  }

  /** A name written on its own and then a nameless value make the same text as a value
      written under the name. */
  lemma NameThenValue(st: State, name: string, early: bool, v: Json, depth: nat)
    requires Run(st, ValueCalls(name, v)) == Done(Valued(st, name, v, depth))
    requires Run(Named(st, name), ValueCalls("", v)) == Done(Valued(Named(st, name), "", v, depth))
    ensures Run(st, MemberCalls(name, early, v)) == Done(Valued(st, name, v, depth))
  {
    hide Run, ValueCalls, Print;
    if early {
      RunOne(st, Name(name));
      RunThen(st, [Name(name)], Named(st, name), ValueCalls("", v));
      var t := st.buffer + Lead(st) + Key(name);
      assert t + "" + "" + Print(v, depth) == t + Print(v, depth);
    }
  }

  lemma ListedMember(st: State, name: string, early: bool, v: Json, rest: Members, depth: nat)
    requires AtDepth(st, depth)
    ensures Listed(Valued(st, name, v, depth), rest, depth) == Listed(st, Cons(name, early, v, rest), depth)
  {
    hide Indent, Join, Print, Key;
    var line := Indent(depth) + Key(name) + Print(v, depth);
    var lines := Lines(rest, depth);
    LeadLine(st, name, v, depth);
    if rest == Nil {
      OneLine(line);
      assert [line] + lines == [line];
    } else {
      MoreLines(line, lines);
      var sep := Separation(st.sep);
      assert st.buffer + sep + line + ",\n" + Join(lines, ",\n")
          == st.buffer + sep + (line + ",\n" + Join(lines, ",\n"));
    }
  }

  lemma LeadLine(st: State, name: string, v: Json, depth: nat)
    requires AtDepth(st, depth)
    ensures Valued(st, name, v, depth).buffer
         == st.buffer + Separation(st.sep) + (Indent(depth) + Key(name) + Print(v, depth))
  {
    hide Indent, Print, Key;
    IndentNothing();
    var sep := Separation(st.sep);
    var key, text := Key(name), Print(v, depth);
    if st.sep == NONE {
      assert "" + key + text == key + text;
    }
    assert Lead(st) == sep + Indent(depth);
    assert st.buffer + (sep + Indent(depth)) + key + text == st.buffer + sep + (Indent(depth) + key + text);
  }

  /** Writing a row of members prints one line per member, with a comma between two
      neighbours and none before the first or after the last. */
  lemma {:induction false} RunMembers(st: State, ms: Members, depth: nat)
    requires AtDepth(st, depth)
    ensures Run(st, CallsOf(ms)) == Done(Listed(st, ms, depth))
    decreases ms
  {
    hide Run, Indent, Print, Valued, ValueCalls, Named;
    match ms
    case Nil => RunNothing(st);
    case Cons(name, early, v, rest) =>
      RunValue(st, name, v, depth);
      NamedIdent(st, name);
      RunValue(Named(st, name), "", v, depth);
      NameThenValue(st, name, early, v, depth);
      var next := Valued(st, name, v, depth);
      ValuedState(st, name, v, depth);
      RunMembers(next, rest, depth);
      RunThen(st, MemberCalls(name, early, v), next, CallsOf(rest));
      ListedMember(st, name, early, v, rest, depth);
  }

  lemma RunNothing(st: State)
    ensures Run(st, []) == Done(st)
  {
  }

  lemma NamedIdent(st: State, name: string)
    ensures Named(st, name).ident == st.ident
  {
  }

  lemma ValuedState(st: State, name: string, v: Json, depth: nat)
    ensures Valued(st, name, v, depth).ident == st.ident && Valued(st, name, v, depth).sep == COMMA
  {
  }

  // ----- the text itself -----

  /** Two members between braces or brackets, a line each, two blanks deeper, the names that are not
      empty in quotes before a colon, and the closing mark on a line of its own. */
  lemma PrintTwo(k: Kind, n1: string, v1: Json, n2: string, v2: Json, depth: nat)
    ensures var indent := seq(2 * depth, _ => ' ');
            var key1 := if n1 == "" then "" else "\"" + n1 + "\": ";
            var key2 := if n2 == "" then "" else "\"" + n2 + "\": ";
            var line1 := indent + "  " + key1 + Print(v1, depth + 1);
            var line2 := indent + "  " + key2 + Print(v2, depth + 1);
            Print(Node(k, Cons(n1, false, v1, Cons(n2, false, v2, Nil))), depth)
              == (if k == OBJ then "{" else "[") + ("\n" + (line1 + ",\n" + line2))
                 + ("\n" + indent + if k == OBJ then "}" else "]")
  {
    hide Join, Print, Indent;
    IndentStep(depth);
    IndentIs(depth);
    var last := Cons(n2, false, v2, Nil);
    PrintNode(k, Cons(n1, false, v1, last), depth);
    var a, b := Indent(depth + 1) + Key(n1) + Print(v1, depth + 1), Indent(depth + 1) + Key(n2) + Print(v2, depth + 1);
    assert Lines(last, depth + 1) == [b];
    OneLine(b);
    MoreLines(a, [b]);
  }

  lemma IndentIs(depth: nat)
    ensures Indent(depth) == seq(2 * depth, _ => ' ')
  {
  }

  /** Values: strings in quotes as they are, numbers in digits, and the three words. */
  lemma PrintLeaf(v: Scalar, depth: nat)
    ensures match v
            case Str(s) => Print(Leaf(v), depth) == "\"" + s + "\""
            case Int(i) => SignedNumeral(Print(Leaf(v), depth), i)
            case Bool(b) => Print(Leaf(v), depth) == if b then "true" else "false"
            case Null => Print(Leaf(v), depth) == "null"
  {
    hide Decimal, SignedNumeral;
    if v.Int? {
      DecimalIsNumeral(v.i);
    }
  }

  // ----- which call sequences are a tree -----

  /** The containers open after a call. */
  function After(open: seq<Kind>, c: Call): seq<Kind> {
    match c
    case Enter(_, k) => open + [k]
    case Leave(_) => if open == [] then [] else open[..|open| - 1]
    case _ => open
  }

  predicate Nameless(c: Call) {
    match c
    case Write(name, _) => name == ""
    case Enter(name, _) => name == ""
    case _ => false
  }

  /** Each container is closed by the call for its own kind, all are closed by the end,
      and a name written on its own is followed by a nameless value. */
  predicate Legal(calls: seq<Call>, open: seq<Kind>)
    decreases |calls|
  {
    if calls == [] then open == []
    else
      var c := calls[0];
      && (c.Name? ==> |calls| > 1 && Nameless(calls[1]))
      && (c.Leave? ==> open != [] && open[|open| - 1] == c.kind)
      && Legal(calls[1..], After(open, c))
  }

  /** What is left to make once the innermost container's calls are done: nothing at the
      top, else the call that closes it. */
  predicate AtClose(rest: seq<Call>, open: seq<Kind>) {
    && Legal(rest, open)
    && (if open == [] then rest == [] else rest != [] && rest[0].Leave?)
  }

  lemma LegalHead(calls: seq<Call>, open: seq<Kind>)
    requires calls != [] && Legal(calls, open)
    ensures Legal(calls[1..], After(open, calls[0]))
    ensures calls[0].Name? ==> |calls| > 1 && Nameless(calls[1])
    ensures calls[0].Leave? ==> open != [] && open[|open| - 1] == calls[0].kind
  {
  }

  lemma AfterLeave(open: seq<Kind>, k: Kind, c: Call)
    requires c.Leave?
    ensures After(open + [k], c) == open
  {
  }

  /** Cutting a container's calls out of a run. */
  lemma CutContainer(calls: seq<Call>, k: Kind, inner: Members, close: seq<Call>)
    requires calls != [] && calls[0].Enter? && calls[0].kind == k
    requires calls[1..] == CallsOf(inner) + close && close != [] && close[0] == Leave(k)
    ensures calls == ValueCalls(calls[0].name, Node(k, inner)) + close[1..]
  {
    hide CallsOf;
    var row := CallsOf(inner);
    assert close == [Leave(k)] + close[1..];
    assert [calls[0]] + (row + ([Leave(k)] + close[1..])) == [calls[0]] + row + [Leave(k)] + close[1..];
  }

  lemma {:induction false} ParseValue(calls: seq<Call>, open: seq<Kind>)
    returns (v: Json, rest: seq<Call>)
    requires calls != [] && Legal(calls, open) && (calls[0].Write? || calls[0].Enter?)
    ensures calls == ValueCalls(calls[0].name, v) + rest && Legal(rest, open) && |rest| < |calls|
    decreases |calls|, 0
  {
    hide Legal, CallsOf;
    LegalHead(calls, open);
    match calls[0]
    case Write(name, s) =>
      v, rest := Leaf(s), calls[1..];
    case Enter(name, k) =>
      var inner, close := ParseMembers(calls[1..], open + [k]);
      LegalHead(close, open + [k]);
      AfterLeave(open, k, close[0]);
      CutContainer(calls, k, inner, close);
      v, rest := Node(k, inner), close[1..];
  }

  lemma Reassociate<T>(a: seq<T>, b: seq<T>, c: seq<T>)
    ensures a + (b + c) == a + b + c
  {
  }

  lemma CutMember(calls: seq<Call>, v: Json, others: Members, after: seq<Call>, rest: seq<Call>)
    returns (ms: Members)
    requires calls != [] && !calls[0].Leave? && (calls[0].Name? ==> |calls| > 1 && Nameless(calls[1]))
    requires var named := if calls[0].Name? then calls[1..] else calls;
      (named[0].Write? || named[0].Enter?) && named == ValueCalls(named[0].name, v) + after
    requires after == CallsOf(others) + rest
    ensures calls == CallsOf(ms) + rest
  {
    hide ValueCalls;
    var early := calls[0].Name?;
    ms := Cons(calls[0].name, early, v, others);
    var named := if early then calls[1..] else calls;
    var head, row := ValueCalls(named[0].name, v), CallsOf(others);
    assert CallsOf(ms) == MemberCalls(calls[0].name, early, v) + row;
    Reassociate(head, row, rest);
    if early {
      assert calls == [calls[0]] + named;
      Reassociate([calls[0]], head, row + rest);
      Reassociate([calls[0]] + head, row, rest);
    }
  }

  lemma {:induction false} ParseMembers(calls: seq<Call>, open: seq<Kind>)
    returns (ms: Members, rest: seq<Call>)
    requires Legal(calls, open)
    ensures calls == CallsOf(ms) + rest && AtClose(rest, open) && |rest| <= |calls|
    ensures open != [] ==> rest[0] == Leave(open[|open| - 1])
    decreases |calls|, 1
  {
    hide Legal, ValueCalls, CallsOf;
    if calls == [] || calls[0].Leave? {
      ms, rest := ParseNone(calls, open);
      return;
    }
    LegalHead(calls, open);
    var named := if calls[0].Name? then calls[1..] else calls;
    var v, after := ParseValue(named, open);
    var others;
    others, rest := ParseMembers(after, open);
    ms := CutMember(calls, v, others, after, rest);
  }

  lemma ParseNone(calls: seq<Call>, open: seq<Kind>) returns (ms: Members, rest: seq<Call>)
    requires Legal(calls, open) && (calls == [] || calls[0].Leave?)
    ensures calls == CallsOf(ms) + rest && AtClose(rest, open) && |rest| <= |calls|
    ensures open != [] ==> rest[0] == Leave(open[|open| - 1])
  {
    ms, rest := Nil, calls;
    assert CallsOf(ms) + rest == rest;
  }

  /** Every legal run is the run of some tree, never throws, and leaves exactly the tree's
      text. */
  lemma LegalRun(calls: seq<Call>) returns (ms: Members)
    requires Legal(calls, [])
    ensures calls == CallsOf(ms)
    ensures Run(START, calls).Done? && Run(START, calls).st.buffer == Join(Lines(ms, 0), ",\n")
  {
    hide Run, Legal, Indent;
    var rest;
    ms, rest := ParseMembers(calls, []);
    IndentNothing();
    RunMembers(START, ms, 0);
  }

  // ----- any run -----

  /** How many more containers a run opens than it closes. */
  function Net(calls: seq<Call>): int {
    if calls == [] then 0
    else (match calls[0] case Enter(_, _) => 1 case Leave(_) => -1 case _ => 0) + Net(calls[1..])
  }

  /** No prefix closes more containers than are open. */
  ghost predicate NeverBelow(calls: seq<Call>, depth: int) {
    forall n :: 0 <= n <= |calls| ==> depth + Net(calls[..n]) >= 0
  }

  lemma StepDepth(st: State, c: Call, depth: nat)
    requires st.ident == Indent(depth)
    ensures Step(st, c).Done? <==> depth + Net([c]) >= 0
    ensures Step(st, c).Done? ==> Step(st, c).st.ident == Indent(depth + Net([c]))
  {
    hide Indent;
    assert [c][1..] == [];
    IndentStep(depth);
    if c.Leave? && depth > 0 {
      IndentStep(depth - 1);
    }
  }

  lemma NetFirst(calls: seq<Call>, n: nat)
    requires 0 < n <= |calls|
    ensures Net(calls[..n]) == Net([calls[0]]) + Net(calls[1..][..n - 1])
  {
    assert calls[..n][1..] == calls[1..][..n - 1];
    assert [calls[0]][1..] == [];
  }

  lemma NeverBelowTail(calls: seq<Call>, depth: nat)
    requires calls != []
    ensures NeverBelow(calls, depth) <==> depth + Net([calls[0]]) >= 0 && NeverBelow(calls[1..], depth + Net([calls[0]]))
  {
    assert calls[..0] == [] && calls[1..][..0] == [] && calls[..1] == [calls[0]];
    var next := depth + Net([calls[0]]);
    forall n | 0 < n <= |calls|
      ensures depth + Net(calls[..n]) == next + Net(calls[1..][..n - 1])
    {
      NetFirst(calls, n);
    }
    if next >= 0 && NeverBelow(calls[1..], next) {
      forall n | 0 <= n <= |calls|
        ensures depth + Net(calls[..n]) >= 0
      {
        if n > 0 {
          assert next + Net(calls[1..][..n - 1]) >= 0;
        }
      }
    }
    if NeverBelow(calls, depth) {
      forall n | 0 <= n <= |calls[1..]|
        ensures next + Net(calls[1..][..n]) >= 0
      {
        assert depth + Net(calls[..n + 1]) >= 0;
      }
    }
  }

  /** Any run at all, legal or not, throws exactly when it closes more than is open, and
      otherwise indents by twice the number of containers left open. */
  lemma {:induction false} RunDepth(st: State, calls: seq<Call>, depth: nat)
    requires st.ident == Indent(depth)
    ensures Run(st, calls).Done? <==> NeverBelow(calls, depth)
    ensures Run(st, calls).Done? ==> depth + Net(calls) >= 0 && Run(st, calls).st.ident == Indent(depth + Net(calls))
    decreases |calls|
  {
    hide Indent, NeverBelow, Step;
    if calls == [] {
      RunEmpty(calls, depth);
    } else {
      StepDepth(st, calls[0], depth);
      NeverBelowTail(calls, depth);
      NetFirst(calls, |calls|);
      assert calls[..|calls|] == calls && calls[1..][..|calls| - 1] == calls[1..];
      if Step(st, calls[0]).Done? {
        RunDepth(Step(st, calls[0]).st, calls[1..], depth + Net([calls[0]]));
      }
    }
  }

  lemma RunEmpty(calls: seq<Call>, depth: nat)
    requires calls == []
    ensures NeverBelow(calls, depth)
  {
  }

  /** Driving a new writer through a tree's calls gives the tree's text. */
  method WriteDocument(ms: Members) returns (text: string)
    ensures text == Join(Lines(ms, 0), ",\n")
  {
    hide Run, Indent;
    IndentNothing();
    var w := new Writer();
    RunMembers(START, ms, 0);
    var _ := w.MakeCalls(CallsOf(ms));
    text := w.buffer;
  }
}
