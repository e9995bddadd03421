/**
 * The PHP runtime values the collections store, and the two conversions between
 * strings and array keys that PHP performs implicitly:
 *  - `(string)$key`, the decimal text of an integer key (KeyText), and
 *  - the cast of a string offset to an array key, under which a canonical
 *    decimal integer string such as "12" becomes the integer key 12 (ArrayKeyOf).
 */
module PhpValues {

  /** An array key: PHP keeps integer keys and string keys apart. */
  datatype Key = IntKey(i: int) | StrKey(s: string)

  /**
   * A PHP runtime value. Strict identity (`===`) is datatype equality: two
   * objects are identical when they are the same object, i.e. have the same
   * `id` (a well-formed heap gives each id a single class). Arrays compare
   * entry by entry, in order. Floats are an opaque token compared by
   * token, so PHP's `NAN !== NAN` and `0.0 === -0.0` are not modelled.
   */
  datatype Value =
    | Int(i: int)
    | Float(token: int)
    | Str(s: string)
    | Bool(b: bool)
    | Null
    | Arr(entries: seq<Entry>)
    | Obj(id: nat, cls: string)
    | Closure(id: nat)

  /** One key/value pair of a PHP array. */
  datatype Entry = Entry(key: Key, value: Value)

  /** `gettype()`: a closure is an object of class Closure. */
  function GetType(v: Value): string
  {
    match v
    case Int(_) => "integer"
    case Float(_) => "double"
    case Str(_) => "string"
    case Bool(_) => "boolean"
    case Null => "NULL"
    case Arr(_) => "array"
    case Obj(_, _) => "object"
    case Closure(_) => "object"
  }

  /** `is_object()` */
  predicate IsObject(v: Value)
  {
    v.Obj? || v.Closure?
  }

  /** `get_class()`, defined on objects only. */
  function ClassOf(v: Value): string
    requires IsObject(v)
  {
    if v.Obj? then v.cls else "Closure"
  }

  /**
   * The class hierarchy seen by `instanceof`: isA(c, d) holds when class c is d,
   * extends d or implements d. It is a parameter of the model.
   */
  type SubtypeRelation = (string, string) -> bool

  /** `$v instanceof $cls` */
  predicate InstanceOf(v: Value, cls: string, isA: SubtypeRelation)
  {
    IsObject(v) && isA(ClassOf(v), cls)
  }

  lemma GetTypeObjectExactlyForObjects(v: Value)
    ensures GetType(v) == "object" <==> IsObject(v)
  {
  }

  // ---------------------------------------------------------------------------
  // Decimal text of integers

  predicate IsDigit(c: char)
  {
    '0' <= c <= '9'
  }

  predicate IsDigits(s: string)
  {
    forall i :: 0 <= i < |s| ==> IsDigit(s[i])
  }

  function DigitValue(c: char): nat
    requires IsDigit(c)
  {
    c as int - '0' as int
  }

  function DigitChar(d: nat): (c: char)
    requires d < 10
    ensures IsDigit(c) && DigitValue(c) == d
  {
    ('0' as int + d) as char
  }

  /** A decimal numeral without superfluous leading zeros: "0", "7", "120". */
  predicate IsCanonicalNat(s: string)
  {
    IsDigits(s) && |s| >= 1 && (|s| == 1 || s[0] != '0')
  }

  /** The canonical decimal text of an integer; "-0" is not one of them. */
  predicate IsCanonicalInt(s: string)
  {
    IsCanonicalNat(s) || (|s| >= 2 && s[0] == '-' && s[1] != '0' && IsCanonicalNat(s[1..]))
  }

  /** Decimal rendering of a non-negative integer. */
  function NatToString(n: nat): (s: string)
    ensures IsCanonicalNat(s)
    ensures n > 0 ==> s[0] != '0'
  {
    if n < 10 then [DigitChar(n)] else NatToString(n / 10) + [DigitChar(n % 10)]
  }

  /** `(string)$n` for an integer. */
  function IntToString(n: int): string
  {
    if n < 0 then "-" + NatToString(-n) else NatToString(n)
  }

  /** The value of a string of digits, read left to right. */
  function NatValue(s: string): nat
    requires IsDigits(s)
  {
    if s == [] then 0 else NatValue(s[..|s| - 1]) * 10 + DigitValue(s[|s| - 1])
  }

  function IntValue(s: string): int
    requires IsCanonicalInt(s)
  {
    if s[0] == '-' then -(NatValue(s[1..]) as int) else NatValue(s)
  }

  /** The array key PHP uses for a string offset. */
  function ArrayKeyOf(s: string): Key
  {
    if IsCanonicalInt(s) then IntKey(IntValue(s)) else StrKey(s)
  }

  /** Offsets are cast to keys before any array access. */
  function NormalizeKey(k: Key): Key
  {
    match k
    case IntKey(_) => k
    case StrKey(s) => ArrayKeyOf(s)
  }

  /** `(string)$key` */
  function KeyText(k: Key): string
  {
    match k
    case IntKey(i) => IntToString(i)
    case StrKey(s) => s
  }

  /** A key PHP can hold: a canonical integer string is always stored as an integer. */
  predicate IsArrayKey(k: Key)
  {
    k.StrKey? ==> !IsCanonicalInt(k.s)
  }

  lemma {:induction false} NatValueOfNatToString(n: nat)
    ensures NatValue(NatToString(n)) == n
  {
    var s := NatToString(n);
    if n < 10 {
      assert s[..|s| - 1] == [];
    } else {
      NatValueOfNatToString(n / 10);
      assert s[..|s| - 1] == NatToString(n / 10);
    }
  }

  lemma {:induction false} LeadingNonZeroIsPositive(s: string)
    requires IsDigits(s) && |s| >= 1 && s[0] != '0'
    ensures NatValue(s) >= 1
  {
    if |s| > 1 {
      LeadingNonZeroIsPositive(s[..|s| - 1]);
    }
  }

  lemma {:induction false} NatToStringOfNatValue(s: string)
    requires IsCanonicalNat(s)
    ensures NatToString(NatValue(s)) == s
  {
    if |s| == 1 {
      assert s[..0] == [];
      assert DigitChar(DigitValue(s[0])) == s[0];
    } else {
      var p := s[..|s| - 1];
      LeadingNonZeroIsPositive(p);
      NatToStringOfNatValue(p);
      var v := NatValue(s);
      assert v / 10 == NatValue(p) && v % 10 == DigitValue(s[|s| - 1]);
      assert DigitChar(DigitValue(s[|s| - 1])) == s[|s| - 1];
      assert s == p + [s[|s| - 1]];
    }
  }

  /** Rendering an integer and casting the text back gives the integer key. */
  lemma IntToStringIsCanonical(n: int)
    ensures IsCanonicalInt(IntToString(n)) && IntValue(IntToString(n)) == n
    ensures ArrayKeyOf(IntToString(n)) == IntKey(n)
  {
    if n < 0 {
      var t := NatToString(-n);
      assert ("-" + t)[1..] == t;
      NatValueOfNatToString(-n);
    } else {
      NatValueOfNatToString(n);
    }
  }

  /** Round trip: a stored key survives `(string)` followed by the key cast. */
  lemma ArrayKeyOfKeyText(k: Key)
    requires IsArrayKey(k)
    ensures ArrayKeyOf(KeyText(k)) == k
  {
    if k.IntKey? {
      IntToStringIsCanonical(k.i);
    }
  }

  /** Round trip: casting a string to a key and back to a string gives the string. */
  lemma KeyTextOfArrayKeyOf(s: string)
    ensures IsArrayKey(ArrayKeyOf(s))
    ensures KeyText(ArrayKeyOf(s)) == s
  {
    if IsCanonicalInt(s) {
      if s[0] == '-' {
        var t := s[1..];
        NatToStringOfNatValue(t);
        LeadingNonZeroIsPositive(t);
        assert s == "-" + t;
      } else {
        NatToStringOfNatValue(s);
      }
    }
  }

  /** Two different strings never land on the same array key. */
  lemma ArrayKeyOfInjective(a: string, b: string)
    ensures ArrayKeyOf(a) == ArrayKeyOf(b) <==> a == b
  {
    KeyTextOfArrayKeyOf(a);
    KeyTextOfArrayKeyOf(b);
  }

  function Pow10(k: nat): (p: nat)
    ensures p >= 1
  {
    if k == 0 then 1 else 10 * Pow10(k - 1)
  }

  /** Large numbers have long renderings, so a probe by increasing suffix finds a free name. */
  lemma {:induction false} NatToStringLength(n: nat, k: nat)
    requires n >= Pow10(k)
    ensures |NatToString(n)| > k
  {
    if k > 0 {
      assert n / 10 >= Pow10(k - 1);
      NatToStringLength(n / 10, k - 1);
    }
  }
}
