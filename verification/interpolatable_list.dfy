/**
 * The X, Y and Z "interpolatable sections" text inputs of the sampler's
 * backbone step. Their `onchange` handlers split the text on commas, trim
 * each field, keep blank fields as empty strings and read every other field
 * with `parseInt(s, 10)`; a field without an integer prefix throws, which the
 * handler catches by marking the input with an error class and leaving the
 * stored list as it was. The input shows the stored list with `join(", ")`.
 */
module InterpolatableList {
  import opened Common
  import opened Decimal
  import opened JsValues

  /** The characters JavaScript's `trim` and `parseInt` skip: WhiteSpace and
      LineTerminator of the ECMAScript grammar. */
  predicate IsJsWhitespace(c: char)
  {
    var u := c as int;
    u == 0x09 || u == 0x0A || u == 0x0B || u == 0x0C || u == 0x0D || u == 0x20 ||
    u == 0xA0 || u == 0x1680 || (0x2000 <= u <= 0x200A) || u == 0x2028 || u == 0x2029 ||
    u == 0x202F || u == 0x205F || u == 0x3000 || u == 0xFEFF
  }

  /** `s` without its leading whitespace. */
  function TrimStart(s: string): string
  {
    if s != [] && IsJsWhitespace(s[0]) then TrimStart(s[1..]) else s
  }

  /** `s` without its trailing whitespace. */
  function TrimEnd(s: string): string
  {
    if s != [] && IsJsWhitespace(s[|s| - 1]) then TrimEnd(s[..|s| - 1]) else s
  }

  /** TrimStart removes exactly the run of whitespace at the start: what it
      keeps is a suffix of `s` that does not start with whitespace, and
      everything before that suffix is whitespace. */
  lemma {:induction false} TrimStartSkipsWhitespace(s: string)
    ensures var r := TrimStart(s);
      && |r| <= |s| && r == s[|s| - |r|..]
      && (r == [] || !IsJsWhitespace(r[0]))
      && forall i :: 0 <= i < |s| - |r| ==> IsJsWhitespace(s[i])
  {
    if s != [] && IsJsWhitespace(s[0]) {
      TrimStartSkipsWhitespace(s[1..]);
      var r := TrimStart(s);
      assert s[1..][|s| - 1 - |r|..] == s[|s| - |r|..];
      forall i | 0 < i < |s| - |r| ensures IsJsWhitespace(s[i]) {
        assert s[i] == s[1..][i - 1];
      }
    }
  }

  /** TrimEnd removes exactly the run of whitespace at the end. */
  lemma {:induction false} TrimEndSkipsWhitespace(s: string)
    ensures var r := TrimEnd(s);
      && |r| <= |s| && r == s[..|r|]
      && (r == [] || !IsJsWhitespace(r[|r| - 1]))
      && forall i :: |r| <= i < |s| ==> IsJsWhitespace(s[i])
  {
    if s != [] && IsJsWhitespace(s[|s| - 1]) {
      TrimEndSkipsWhitespace(s[..|s| - 1]);
      var r := TrimEnd(s);
      assert s[..|s| - 1][..|r|] == s[..|r|];
      forall i | |r| <= i < |s| - 1 ensures IsJsWhitespace(s[i]) {
        assert s[i] == s[..|s| - 1][i];
      }
    }
  }

  /** `String.prototype.trim`: what is left neither starts nor ends with
      whitespace. */
  function Trim(s: string): (r: string)
    ensures |r| <= |s|
    ensures r == [] || (!IsJsWhitespace(r[0]) && !IsJsWhitespace(r[|r| - 1]))
  {
    var t := TrimStart(s);
    TrimStartSkipsWhitespace(s);
    TrimEndSkipsWhitespace(t);
    assert TrimEnd(t) == [] || TrimEnd(t)[0] == t[0];
    TrimEnd(t)
  }

  /** Trimming twice is trimming once. */
  lemma TrimIdempotent(s: string)
    ensures Trim(Trim(s)) == Trim(s)
  {
    var r := Trim(s);
    assert TrimStart(r) == r;
    assert TrimEnd(r) == r;
  }

  function CommaCount(s: string): nat
  {
    if s == [] then 0 else (if s[0] == ',' then 1 else 0) + CommaCount(s[1..])
  }

  /** `s.split(',')`: the text between consecutive commas, in order. */
  function Split(s: string): (fields: seq<string>)
    ensures |fields| == CommaCount(s) + 1
    ensures forall i :: 0 <= i < |fields| ==> ',' !in fields[i]
  {
    if s == [] then [""]
    else
      var rest := Split(s[1..]);
      if s[0] == ',' then [""] + rest else [[s[0]] + rest[0]] + rest[1..]
  }

  /** `fields.join(',')`. */
  function Join(fields: seq<string>): string
    requires |fields| >= 1
  {
    if |fields| == 1 then fields[0] else fields[0] + "," + Join(fields[1..])
  }

  /** Splitting loses nothing: joining the fields again gives the text back. */
  lemma {:induction false} JoinSplit(s: string)
    ensures Join(Split(s)) == s
  {
    if s != [] {
      var rest := Split(s[1..]);
      JoinSplit(s[1..]);
      if s[0] == ',' {
        assert Split(s) == [""] + rest;
        assert Split(s)[1..] == rest;
        assert s == "" + "," + s[1..];
      } else if |rest| == 1 {
        assert s == [s[0]] + rest[0];
      } else {
        var fs := Split(s);
        assert fs[1..] == rest[1..];
        assert Join(rest) == rest[0] + "," + Join(rest[1..]);
        assert s == ([s[0]] + rest[0]) + "," + Join(rest[1..]);
      }
    }
  }

  lemma {:induction false} SplitCommaFreePrefix(f: string, t: string)
    requires ',' !in f
    ensures Split(f + t) == [f + Split(t)[0]] + Split(t)[1..]
  {
    if f != [] {
      assert (f + t)[1..] == f[1..] + t;
      assert ',' !in f[1..] by {
        forall i | 0 <= i < |f[1..]| ensures f[1..][i] != ',' {
          assert f[1..][i] == f[i + 1];
        }
      }
      SplitCommaFreePrefix(f[1..], t);
      assert f[0] in f;
      assert (f + t)[0] == f[0];
      var rest := Split((f + t)[1..]);
      assert rest == [f[1..] + Split(t)[0]] + Split(t)[1..];
      assert Split(f + t) == [[f[0]] + rest[0]] + rest[1..];
      assert rest[1..] == Split(t)[1..];
      assert [f[0]] + (f[1..] + Split(t)[0]) == f + Split(t)[0];
    } else {
      assert f + t == t;
      assert f + Split(t)[0] == Split(t)[0];
      assert Split(t) == [Split(t)[0]] + Split(t)[1..];
    }
  }

  /** Fields without commas are split back exactly as they were joined. */
  lemma {:induction false} SplitJoin(fields: seq<string>)
    requires |fields| >= 1
    requires forall i :: 0 <= i < |fields| ==> ',' !in fields[i]
    ensures Split(Join(fields)) == fields
  {
    var f := fields[0];
    if |fields| == 1 {
      SplitCommaFreePrefix(f, "");
      assert f + "" == f;
    } else {
      var j := Join(fields[1..]);
      SplitJoin(fields[1..]);
      assert Join(fields) == f + ("," + j);
      SplitCommaFreePrefix(f, "," + j);
      assert ("," + j)[1..] == j;
      assert Split("," + j) == [""] + fields[1..];
      assert f + "" == f;
    }
  }

  /** The longest prefix of `s` made of decimal digits. */
  function DigitPrefix(s: string): (p: string)
    ensures |p| <= |s| && p == s[..|p|] && AllDigits(p)
    ensures |p| < |s| ==> !IsDigit(s[|p|])
  {
    if s != [] && IsDigit(s[0]) then [s[0]] + DigitPrefix(s[1..]) else ""
  }

  /** `s` without one leading '+' or '-'. */
  function Unsigned(t: string): string
  {
    if t != [] && (t[0] == '-' || t[0] == '+') then t[1..] else t
  }

  /** `parseInt(s, 10)`: skip leading whitespace, read an optional sign and
      the longest run of digits after it. None stands for NaN, the result when
      that run is empty. */
  function ParseInt(s: string): (r: Option<int>)
    ensures r.None? <==> Unsigned(TrimStart(s)) == [] || !IsDigit(Unsigned(TrimStart(s))[0])
    ensures r.Some? && r.value < 0 ==> TrimStart(s)[0] == '-'
  {
    var t := TrimStart(s);
    var p := DigitPrefix(Unsigned(t));
    var magnitude: int := if p == [] then 0 else DecimalValue(p);
    if p == [] then None
    else if t[0] == '-' then Some(-magnitude)
    else Some(magnitude)
  }

  lemma {:induction false} DigitPrefixOfDigits(d: string, rest: string)
    requires AllDigits(d)
    requires rest == [] || !IsDigit(rest[0])
    ensures DigitPrefix(d + rest) == d
  {
    if d != [] {
      assert (d + rest)[1..] == d[1..] + rest;
      DigitPrefixOfDigits(d[1..], rest);
      assert d == [d[0]] + d[1..];
    } else {
      assert d + rest == rest;
    }
  }

  /** `parseInt` of a run of digits, followed by anything that is not a
      digit, reads that run. */
  lemma ParseIntOfDigits(d: string, rest: string)
    requires d != [] && AllDigits(d)
    requires rest == [] || !IsDigit(rest[0])
    ensures ParseInt(d + rest) == Some(DecimalValue(d))
  {
    var s := d + rest;
    assert s[0] == d[0];
    assert TrimStart(s) == s by {
      assert !IsJsWhitespace(s[0]);
    }
    assert Unsigned(s) == s;
    DigitPrefixOfDigits(d, rest);
    assert DigitPrefix(s) == d;
  }

  /** The same run after a minus sign reads as its negation. */
  lemma ParseIntOfNegatedDigits(d: string, rest: string)
    requires d != [] && AllDigits(d)
    requires rest == [] || !IsDigit(rest[0])
    ensures ParseInt("-" + (d + rest)) == Some(0 - DecimalValue(d))
  {
    var s := "-" + (d + rest);
    assert s[0] == '-';
    assert s[1..] == d + rest;
    DigitPrefixOfDigits(d, rest);
    ParseIntOfSignedText(s, d);
  }

  /** `parseInt` of a text that starts with '-' and whose digits after the
      sign are `d`. */
  lemma ParseIntOfSignedText(s: string, d: string)
    requires s != [] && s[0] == '-' && d != []
    requires DigitPrefix(s[1..]) == d
    ensures ParseInt(s) == Some(0 - DecimalValue(d))
  {
    assert TrimStart(s) == s by {
      assert !IsJsWhitespace(s[0]);
    }
    assert Unsigned(s) == s[1..];
  }

  /** `parseInt` reads an integer's decimal notation back, whatever follows
      it that is not a digit ("12abc" reads as 12). */
  lemma ParseIntReadsInteger(i: int, rest: string)
    requires rest == [] || !IsDigit(rest[0])
    ensures ParseInt(IntToString(i) + rest) == Some(i)
  {
    var n: nat := if i < 0 then -i else i;
    var d := NatToString(n);
    DecimalValueOfNatToString(n);
    if i < 0 {
      assert IntToString(i) == "-" + d;
      assert ("-" + d) + rest == "-" + (d + rest);
      ParseIntOfNegatedDigits(d, rest);
      assert ParseInt("-" + (d + rest)) == Some(i);
    } else {
      assert IntToString(i) == d;
      ParseIntOfDigits(d, rest);
      assert ParseInt(d + rest) == Some(i);
    }
  }

  /** What one field turns into: a blank field stays the empty string, any
      other field becomes the number `parseInt` reads. None: the mapper throws
      "No number". */
  function ParseField(f: string): Option<JsValue>
  {
    var t := Trim(f);
    if t == [] then Some(Str(""))
    else match ParseInt(t)
      case None => None
      case Some(v) => Some(Num(v as real))
  }

  /** Outcome of `split(',').map(...)`: the new list, or the "No number"
      exception the mapper throws at the first field without a number. */
  datatype ListParse = Parsed(values: seq<JsValue>) | NoNumber

  /** `fields.map(...)`: every field parsed, in order, or NoNumber as soon as
      one of them has no number. */
  function ParseFields(fields: seq<string>): (r: ListParse)
    ensures r.Parsed? <==> forall i :: 0 <= i < |fields| ==> ParseField(fields[i]).Some?
    ensures r.Parsed? ==> |r.values| == |fields|
    ensures r.Parsed? ==> forall i :: 0 <= i < |fields| ==> r.values[i] == ParseField(fields[i]).value
  {
    if fields == [] then Parsed([])
    else match ParseField(fields[0])
      case None => NoNumber
      case Some(v) =>
        match ParseFields(fields[1..])
        case NoNumber => NoNumber
        case Parsed(vs) => Parsed([v] + vs)
  }

  /** The list parsed from an input's text. */
  function ParseList(text: string): (r: ListParse)
    ensures r.Parsed? ==> |r.values| == CommaCount(text) + 1
  {
    ParseFields(Split(text))
  }

  /** An empty input does not give an empty list but a list holding one
      blank entry. */
  lemma EmptyTextGivesOneBlank()
    ensures ParseList("") == Parsed([Str("")])
  {
    assert Split("") == [""];
    assert Trim("") == "";
    assert ParseField("") == Some(Str(""));
  }

  /** One entry of a stored list: a blank or an integer. */
  function EntryValue(e: Option<int>): JsValue
  {
    match e
    case None => Str("")
    case Some(i) => Num(i as real)
  }

  function EntryText(e: Option<int>): string
  {
    match e
    case None => ""
    case Some(i) => IntToString(i)
  }

  /** The input's initial text, `list.join(", ")`: one comma between each
      two entries and no other. */
  function Display(entries: seq<Option<int>>): (r: string)
    ensures entries != [] ==> CommaCount(r) == |entries| - 1
  {
    if entries == [] then ""
    else if |entries| == 1 then
      EntryTextCommaFree(entries[0]);
      EntryText(entries[0])
    else
      var a := EntryText(entries[0]);
      var rest := Display(entries[1..]);
      EntryTextCommaFree(entries[0]);
      CommaCountConcat(a, ", ");
      CommaCountConcat(a + ", ", rest);
      a + ", " + rest
  }

  lemma {:induction false} CommaCountConcat(a: string, b: string)
    ensures CommaCount(a + b) == CommaCount(a) + CommaCount(b)
  {
    if a == [] {
      assert a + b == b;
    } else {
      assert (a + b)[1..] == a[1..] + b;
      CommaCountConcat(a[1..], b);
    }
  }

  /** An entry's text holds no comma. */
  lemma EntryTextCommaFree(e: Option<int>)
    ensures CommaCount(EntryText(e)) == 0
  {
    if e.Some? {
      TrimIntegerText(e.value, "");
      assert "" + EntryText(e) == EntryText(e);
      CommaFree(EntryText(e));
    }
  }

  lemma {:induction false} CommaFree(t: string)
    requires ',' !in t
    ensures CommaCount(t) == 0
  {
    if t != [] {
      assert t[0] in t;
      assert forall c :: c in t[1..] ==> c in t;
      CommaFree(t[1..]);
    }
  }

  /** The decimal notation of an integer holds neither whitespace nor a
      comma, so trimming it, even after one leading space, gives it back. */
  lemma TrimIntegerText(i: int, pad: string)
    requires pad == "" || pad == " "
    ensures ',' !in pad + IntToString(i)
    ensures Trim(pad + IntToString(i)) == IntToString(i)
  {
    var t := IntToString(i);
    var f := pad + t;
    IntegerTextChars(i);
    assert forall k :: 0 <= k < |f| ==> f[k] != ',' by {
      assert forall k :: |pad| <= k < |f| ==> f[k] == t[k - |pad|];
    }
    assert TrimStart(t) == t;
    assert TrimStart(f) == t by {
      if pad == " " {
        assert f[1..] == t;
      } else {
        assert f == t;
      }
    }
    assert TrimEnd(t) == t;
    assert Trim(f) == TrimEnd(TrimStart(f));
  }

  /** An integer's decimal notation is made of digits and '-'. */
  lemma IntegerTextChars(i: int)
    ensures forall k :: 0 <= k < |IntToString(i)| ==> IntToString(i)[k] == '-' || IsDigit(IntToString(i)[k])
  {
    var t := IntToString(i);
    var n: nat := if i < 0 then -i else i;
    if i < 0 {
      assert forall k :: 1 <= k < |t| ==> t[k] == NatToString(n)[k - 1];
    }
  }

  lemma EntryTextIsFieldOfItself(e: Option<int>, pad: string)
    requires pad == "" || pad == " "
    ensures ',' !in pad + EntryText(e)
    ensures ParseField(pad + EntryText(e)) == Some(EntryValue(e))
  {
    match e
    case None =>
      assert pad + EntryText(e) == pad;
      assert IsJsWhitespace(' ');
      assert TrimStart(pad) == "" by {
        if pad == " " {
          assert pad[1..] == "";
        }
      }
      assert Trim(pad) == "";
    case Some(i) =>
      var t := IntToString(i);
      TrimIntegerText(i, pad);
      ParseIntReadsInteger(i, "");
      assert t + "" == t;
  }

  /** The texts of `es`, each preceded by the space of ", ". */
  function Padded(es: seq<Option<int>>): (fs: seq<string>)
    ensures |fs| == |es|
    ensures forall i :: 0 <= i < |es| ==> fs[i] == " " + EntryText(es[i])
  {
    if es == [] then []
    else
      var rest := Padded(es[1..]);
      var fs := [" " + EntryText(es[0])] + rest;
      forall i | 1 <= i < |es| ensures fs[i] == " " + EntryText(es[i]) {
        assert fs[i] == rest[i - 1] && es[1..][i - 1] == es[i];
      }
      fs
  }

  /** The fields `Display(entries)` splits into: each entry's text, after the
      first one preceded by the space of ", ". */
  function DisplayFields(entries: seq<Option<int>>): (fs: seq<string>)
    requires entries != []
    ensures |fs| == |entries|
  {
    [EntryText(entries[0])] + Padded(entries[1..])
  }

  lemma {:induction false} DisplayIsJoin(entries: seq<Option<int>>)
    requires entries != []
    ensures Display(entries) == Join(DisplayFields(entries))
  {
    if |entries| > 1 {
      var rest := entries[1..];
      DisplayIsJoin(rest);
      var gs := DisplayFields(rest);
      assert gs[1..] == Padded(rest[1..]);
      JoinSpaceFirst(gs);
      var fs := DisplayFields(entries);
      assert fs[1..] == Padded(rest) == [" " + gs[0]] + gs[1..];
      var a := EntryText(entries[0]);
      assert Display(entries) == (a + ", ") + Display(rest);
      assert Join(fs[1..]) == " " + Display(rest);
      PrependEntry(a, Display(rest), fs);
    }
  }

  /** Joining an entry in front of the shown rest with ", " is the comma
      join of the fields once the rest's fields carry the space. */
  lemma PrependEntry(a: string, shown: string, fs: seq<string>)
    requires |fs| >= 2 && fs[0] == a && Join(fs[1..]) == " " + shown
    ensures (a + ", ") + shown == Join(fs)
  {
    assert a + ", " == (a + ",") + " ";
    assert Join(fs) == (a + ",") + Join(fs[1..]);
  }

  /** Putting a space before the first field puts it before the join. */
  lemma JoinSpaceFirst(gs: seq<string>)
    requires gs != []
    ensures Join([" " + gs[0]] + gs[1..]) == " " + Join(gs)
  {
    var hs := [" " + gs[0]] + gs[1..];
    if |gs| > 1 {
      assert hs[1..] == gs[1..];
      assert " " + (gs[0] + "," + Join(gs[1..])) == (" " + gs[0]) + "," + Join(gs[1..]);
    }
  }

  lemma DisplayFieldsParse(entries: seq<Option<int>>)
    requires entries != []
    ensures forall i :: 0 <= i < |entries| ==> ',' !in DisplayFields(entries)[i]
    ensures forall i :: 0 <= i < |entries| ==> ParseField(DisplayFields(entries)[i]) == Some(EntryValue(entries[i]))
  {
    var fs := DisplayFields(entries);
    forall i | 0 <= i < |fs|
      ensures ',' !in fs[i] && ParseField(fs[i]) == Some(EntryValue(entries[i]))
    {
      if i == 0 {
        EntryTextIsFieldOfItself(entries[0], "");
        assert fs[0] == "" + EntryText(entries[0]);
      } else {
        assert fs[i] == Padded(entries[1..])[i - 1];
        assert entries[1..][i - 1] == entries[i];
        EntryTextIsFieldOfItself(entries[i], " ");
      }
    }
  }

  /** The stored list an input displays. */
  function EntryValues(entries: seq<Option<int>>): (vs: seq<JsValue>)
    ensures |vs| == |entries|
    ensures forall i :: 0 <= i < |entries| ==> vs[i] == EntryValue(entries[i])
  {
    seq(|entries|, i requires 0 <= i < |entries| => EntryValue(entries[i]))
  }

  /** What an input displays parses back to the list it displays, provided
      the list is not empty. */
  lemma ParseListOfDisplay(entries: seq<Option<int>>)
    requires entries != []
    ensures ParseList(Display(entries)) == Parsed(EntryValues(entries))
  {
    var fs := DisplayFields(entries);
    DisplayFieldsParse(entries);
    DisplayIsJoin(entries);
    SplitJoin(fs);
    var r := ParseFields(fs);
    assert r.Parsed?;
    assert r.values == EntryValues(entries);
  }

  datatype Axis = X | Y | Z

  /** The three stored lists and whether each input shows the error class. */
  datatype ListInputs = ListInputs(
    interpolatableX: JsValue, interpolatableY: JsValue, interpolatableZ: JsValue,
    errorX: bool, errorY: bool, errorZ: bool)
  {
    function Stored(a: Axis): JsValue
    {
      match a
      case X => interpolatableX
      case Y => interpolatableY
      case Z => interpolatableZ
    }

    function ErrorShown(a: Axis): bool
    {
      match a
      case X => errorX
      case Y => errorY
      case Z => errorZ
    }

    function WithStored(a: Axis, v: JsValue): (r: ListInputs)
      ensures r.Stored(a) == v
      ensures forall b :: b != a ==> r.Stored(b) == Stored(b)
      ensures forall b :: r.ErrorShown(b) == ErrorShown(b)
    {
      match a
      case X => this.(interpolatableX := v)
      case Y => this.(interpolatableY := v)
      case Z => this.(interpolatableZ := v)
    }

    function WithErrorShown(a: Axis, b: bool): (r: ListInputs)
      ensures r.ErrorShown(a) == b
      ensures forall c :: c != a ==> r.ErrorShown(c) == ErrorShown(c)
      ensures forall c :: r.Stored(c) == Stored(c)
    {
      match a
      case X => this.(errorX := b)
      case Y => this.(errorY := b)
      case Z => this.(errorZ := b)
    }
  }

  /** The handler of `input` storing into the list of `target`: remove the
      error class, parse, store on success, add the error class on failure. */
  function HandleChange(st: ListInputs, input: Axis, target: Axis, text: string): (r: ListInputs)
    ensures r.ErrorShown(input) <==> ParseList(text).NoNumber?
    ensures r.Stored(target) == if ParseList(text).Parsed? then Arr(ParseList(text).values) else st.Stored(target)
    ensures forall a :: a != target ==> r.Stored(a) == st.Stored(a)
    ensures forall a :: a != input ==> r.ErrorShown(a) == st.ErrorShown(a)
  {
    var cleared := st.WithErrorShown(input, false);
    match ParseList(text)
    case Parsed(vs) => cleared.WithStored(target, Arr(vs))
    case NoNumber => cleared.WithErrorShown(input, true)
  }

  /** The three handlers as written: the Z input stores into interpolatableY,
      so interpolatableZ never changes and a Z edit overwrites the Y list. */
  function ApplyInputAsWritten(st: ListInputs, input: Axis, text: string): (r: ListInputs)
    ensures r.interpolatableZ == st.interpolatableZ
    ensures input == Z && ParseList(text).Parsed? ==> r.interpolatableY == Arr(ParseList(text).values)
    ensures input == Z ==> r.interpolatableX == st.interpolatableX
    ensures input == Z && ParseList(text).NoNumber? ==> r.interpolatableY == st.interpolatableY
    ensures input == Z ==> forall a :: a != Z ==> r.ErrorShown(a) == st.ErrorShown(a)
    ensures input != Z ==> r == ApplyInput(st, input, text)
    ensures r.ErrorShown(input) <==> ParseList(text).NoNumber?
  {
    HandleChange(st, input, if input == Z then Y else input, text)
  }

  /** The Z handler as evidently intended: every input stores into its own
      list. On success that list becomes the parsed list, on failure it is
      kept and only the input's error class is set; the other inputs' lists
      and error classes never change. */
  function ApplyInput(st: ListInputs, input: Axis, text: string): (r: ListInputs)
    ensures r.ErrorShown(input) <==> ParseList(text).NoNumber?
    ensures r.Stored(input) == if ParseList(text).Parsed? then Arr(ParseList(text).values) else st.Stored(input)
    ensures forall a :: a != input ==> r.Stored(a) == st.Stored(a) && r.ErrorShown(a) == st.ErrorShown(a)
  {
    HandleChange(st, input, input, text)
  }

  /** A concrete Z edit showing the difference: "5" typed into the Z input
      replaces the Y list and leaves the Z list as it was. */
  lemma ZInputOverwritesY(st: ListInputs)
    requires st.interpolatableY != Arr([Num(5.0)])
    ensures ApplyInputAsWritten(st, Z, "5").interpolatableY == Arr([Num(5.0)])
    ensures ApplyInputAsWritten(st, Z, "5").interpolatableZ == st.interpolatableZ
    ensures ApplyInput(st, Z, "5").interpolatableZ == Arr([Num(5.0)])
    ensures ApplyInput(st, Z, "5").interpolatableY == st.interpolatableY
  {
    ParseListOfDisplay([Some(5)]);
    assert Display([Some(5)]) == "5";
    assert EntryValues([Some(5)]) == [Num(5.0)];
  }
}
