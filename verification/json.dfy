/** Parsed JSON values as the handler sees them after json.loads, the
    exceptions the handler raises or lets escape, and the Python builtins it
    applies to parsed values: `in`, subscripting, str() and int(). */
module Json {
  import opened Text

  /** A Python float as json.loads produces it: a finite double (held
      exactly as a real), an infinity, or NaN (json.loads accepts the
      literals Infinity, -Infinity and NaN). */
  datatype Double = Finite(value: real) | Infinity(negative: bool) | NaN

  /** A value returned by json.loads: None, bool, int, float, str, list, dict. */
  datatype Json =
    | Null
    | Bool(b: bool)
    | Int(i: int)
    | Float(f: Double)
    | Str(s: string)
    | Arr(items: seq<Json>)
    | Obj(fields: map<string, Json>)

  /** The exceptions that reach the handler's outer `except` clauses:
      a ValueError (or subclass), an HTTPException raised on purpose, or
      any other exception, each with the text str(e) gives. */
  datatype Exception =
    | ValueError(message: string)
    | HttpError(status: nat, detail: string)
    | OtherError(message: string)

  datatype Result<T> = Ok(value: T) | Err(error: Exception)

  datatype Option<T> = None | Some(value: T)

  /** The outcome of json.loads: a value, a JSONDecodeError with its text,
      or another exception that escapes a handler for JSONDecodeError: a
      plain ValueError (an integer literal over the digit limit) or a
      non-ValueError (a RecursionError on deep nesting). */
  datatype Decoded =
    | Decoded(value: Json)
    | DecodeError(message: string)
    | Raised(valueError: bool, message: string)

  /** The exception an escaping json.loads error stands for. */
  function Escaped(d: Decoded): (e: Exception)
    requires d.Raised?
    ensures e.ValueError? <==> d.valueError
    ensures !e.HttpError?
    // the same exception object propagates, so its text is json.loads's own
    ensures e.message == d.message
  {
    if d.valueError then ValueError(d.message) else OtherError(d.message)
  }

  /** type(v).__name__ */
  function TypeName(v: Json): string {
    match v
    case Null => "NoneType"
    case Bool(_) => "bool"
    case Int(_) => "int"
    case Float(_) => "float"
    case Str(_) => "str"
    case Arr(_) => "list"
    case Obj(_) => "dict"
  }

  /** Python's `key in v` for a string key: dict membership, list
      membership, substring test, or a TypeError for anything else. */
  function In(key: string, v: Json): (r: Result<bool>)
    ensures v.Obj? ==> r == Ok(key in v.fields)
    ensures v.Arr? ==> r == Ok(Str(key) in v.items)
    ensures v.Str? ==> r == Ok(Contains(v.s, key))
    ensures r.Err? <==> !(v.Obj? || v.Arr? || v.Str?)
    // the failure is a TypeError, which the handler does not treat as a ValueError
    ensures r.Err? ==> r.error.OtherError?
    ensures r.Err? ==> r.error.message == "argument of type '" + TypeName(v) + "' is not iterable"
  {
    match v
    case Obj(fields) => Ok(key in fields)
    case Arr(items) => Ok(Str(key) in items)
    case Str(s) => Ok(Contains(s, key))
    case _ => Err(OtherError("argument of type '" + TypeName(v) + "' is not iterable"))
  }

  /** Python's `v[key]` for a string key. */
  function Subscript(v: Json, key: string): (r: Result<Json>)
    ensures r.Ok? <==> v.Obj? && key in v.fields
    ensures r.Ok? ==> r.value == v.fields[key]
    // a KeyError or TypeError, never a ValueError; a KeyError's text is the quoted key
    ensures r.Err? ==> r.error.OtherError?
    ensures v.Obj? && key !in v.fields ==> r == Err(OtherError("'" + key + "'"))
  {
    match v
    case Obj(fields) =>
      if key in fields then Ok(fields[key]) else Err(OtherError("'" + key + "'"))
    case Arr(_) => Err(OtherError("list indices must be integers or slices, not str"))
    case Str(_) => Err(OtherError("string indices must be integers, not 'str'"))
    case _ => Err(OtherError("'" + TypeName(v) + "' object is not subscriptable"))
  }

  /** Python's str() of a parsed value. Strings, ints, booleans and None
      are rendered exactly; floats, lists and dicts are rendered by
      `render`, which stands for Python's repr rules. */
  function PyStr(v: Json, render: Json -> string): (r: string)
    ensures v.Str? ==> r == v.s
    ensures v.Int? ==> r == IntToDecimal(v.i)
    ensures v.Null? ==> r == "None"
    ensures v.Bool? ==> r == (if v.b then "True" else "False")
  {
    match v
    case Null => "None"
    case Bool(b) => if b then "True" else "False"
    case Int(i) => IntToDecimal(i)
    case Str(s) => s
    case _ => render(v)
  }

  /** sys.int_info.default_max_str_digits */
  const MaxStrDigits: nat := 4300

  /** Digits separated by single underscores, as int() accepts them. */
  predicate DigitGroups(s: string) {
    && |s| > 0
    && IsDigit(s[0])
    && IsDigit(s[|s| - 1])
    && (forall k :: 0 <= k < |s| ==> IsDigit(s[k]) || s[k] == '_')
    && (forall k :: 0 <= k < |s| - 1 ==> !(s[k] == '_' && s[k + 1] == '_'))
  }

  /** The digits of `s` with the underscores dropped. */
  function DropUnderscores(s: string): (r: string)
    requires forall k :: 0 <= k < |s| ==> IsDigit(s[k]) || s[k] == '_'
    ensures AllDigits(r)
    ensures AllDigits(s) ==> r == s
  {
    if |s| == 0 then []
    else if s[0] == '_' then DropUnderscores(s[1..])
    else [s[0]] + DropUnderscores(s[1..])
  }

  predicate HasSign(t: string) {
    |t| > 0 && (t[0] == '+' || t[0] == '-')
  }

  /** The literal `t` with its sign removed. */
  function Unsigned(t: string): string {
    if HasSign(t) then t[1..] else t
  }

  /** A base-10 literal that int() accepts once the surrounding blanks are skipped. */
  predicate IsIntLiteral(t: string) {
    DigitGroups(Unsigned(t))
  }

  /** The digits a literal accepted by int() carries. */
  function LiteralDigits(t: string): (ds: string)
    requires IsIntLiteral(t)
    ensures AllDigits(ds)
  {
    DropUnderscores(Unsigned(t))
  }

  /** The value of a literal accepted by int(). */
  function LiteralValue(t: string): int
    requires IsIntLiteral(t)
  {
    var magnitude: int := DigitsValue(LiteralDigits(t));
    if t[0] == '-' then -magnitude else magnitude
  }

  /** int(s) for a str `s`. The repr of `s` in the error text is
      approximated by single quotes. */
  function IntOfText(s: string): (r: Result<int>)
    ensures r.Ok? <==> IsIntLiteral(IntStrip(s)) && |LiteralDigits(IntStrip(s))| <= MaxStrDigits
    ensures r.Ok? ==> r.value == LiteralValue(IntStrip(s))
    ensures r.Err? ==> r.error.ValueError?
  {
    var t := IntStrip(s);
    if !IsIntLiteral(t) then
      Err(ValueError("invalid literal for int() with base 10: '" + s + "'"))
    else if |LiteralDigits(t)| > MaxStrDigits then
      Err(ValueError("Exceeds the limit (4300 digits) for integer string conversion: value has "
                     + NatToDecimal(|LiteralDigits(t)|) + " digits; use sys.set_int_max_str_digits() to increase the limit"))
    else
      Ok(LiteralValue(t))
  }

  /** int(x) truncates a finite float toward zero. */
  function Truncate(x: real): (r: int)
    ensures x >= 0.0 ==> r as real <= x < r as real + 1.0
    ensures x < 0.0 ==> r as real - 1.0 < x <= r as real
  {
    if x >= 0.0 then x.Floor else -((-x).Floor)
  }

  /** Python's int() of a parsed value. */
  function PyInt(v: Json): (r: Result<int>)
    ensures v.Int? ==> r == Ok(v.i)
    ensures (v.Null? || v.Arr? || v.Obj?) ==> r.Err? && r.error.OtherError?
    ensures v.Str? ==> r == IntOfText(v.s)
    ensures r.Err? ==> !r.error.HttpError?
  {
    match v
    case Int(i) => Ok(i)
    case Bool(b) => Ok(if b then 1 else 0)
    case Float(Finite(x)) => Ok(Truncate(x))
    case Float(NaN) => Err(ValueError("cannot convert float NaN to integer"))
    case Float(Infinity(_)) => Err(OtherError("cannot convert float infinity to integer"))
    case Str(s) => IntOfText(s)
    case _ => Err(OtherError("int() argument must be a string, a bytes-like object or a real number, not '"
                             + TypeName(v) + "'"))
  }

  lemma DecimalIsTrimmed(n: int)
    ensures IntStrip(IntToDecimal(n)) == IntToDecimal(n)
  {
    var t := IntToDecimal(n);
    var ds := NatToDecimal(if n < 0 then -n else n);
    assert t[|t| - 1] == ds[|ds| - 1];
    assert TrimStart(IntBlanks, t) == t;
    assert TrimEnd(IntBlanks, t) == t;
  }

  /** int() keeps the ASCII separator U+001C that strip() removes, so a
      numeral behind one is rejected. */
  lemma SeparatorRejectedByInt()
    ensures Strip([0x1c as char] + "5") == "5"
    ensures IntOfText([0x1c as char] + "5").Err?
  {
    var s := [0x1c as char] + "5";
    StripUnique([0x1c as char], "5", []);
    assert [0x1c as char] + "5" + [] == s;
    assert TrimStart(IntBlanks, s) == s;
    assert TrimEnd(IntBlanks, s) == s;
    assert !IsIntLiteral(IntStrip(s));
  }

  lemma DecimalIsLiteral(n: int)
    ensures IsIntLiteral(IntToDecimal(n))
    ensures LiteralDigits(IntToDecimal(n)) == NatToDecimal(if n < 0 then -n else n)
    ensures LiteralValue(IntToDecimal(n)) == n
  {
    var m: nat := if n < 0 then -n else n;
    var ds := NatToDecimal(m);
    var t := IntToDecimal(n);
    assert Unsigned(t) == ds;
    assert DigitGroups(ds);
    DecimalRoundTrip(m);
  }

  lemma DecimalReadsBack(n: int)
    requires |NatToDecimal(if n < 0 then -n else n)| <= MaxStrDigits
    ensures IntOfText(IntToDecimal(n)) == Ok(n)
  {
    DecimalIsTrimmed(n);
    DecimalIsLiteral(n);
  }

  /** int(str(n)) == n: the text str() gives an int reads back as that int. */
  lemma IntTextRoundTrip(n: int, render: Json -> string)
    requires |NatToDecimal(if n < 0 then -n else n)| <= MaxStrDigits
    ensures PyInt(Str(PyStr(Int(n), render))) == Ok(n)
  {
    assert PyStr(Int(n), render) == IntToDecimal(n);
    DecimalReadsBack(n);
  }
}
