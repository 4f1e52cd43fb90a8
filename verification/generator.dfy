/**
 * `generatePassword`: build the character set from the enabled classes, in a
 * fixed order, then append one character of it per iteration. The random
 * index `Math.floor(Math.random() * chars.length)` of iteration `i` is
 * supplied as `draws[i]`.
 */
module Generator {

  const LOWER_CASE: string := "abcdefghijklmnopqrstuvwxyz"
  const UPPER_CASE: string := "ABCDEFGHIJKLMNOPQRSTUVWXYZ"
  const NUMBERS: string := "0123456789"
  const SYMBOLS: string := "!@#$%^&*()_+=-[]{}|;':\",.<>/?"

  /** The component's props. */
  datatype Options = Options(
    length: int,
    includeLowercase: bool,
    includeUppercase: bool,
    includeNumbers: bool,
    includeSymbols: bool)

  /** The default props: length 10, every class enabled. */
  const DEFAULTS: Options := Options(10, true, true, true, true)

  /** The characters of a class when it is enabled, none otherwise. */
  function Class(enabled: bool, chars: string): string {
    if enabled then chars else ""
  }

  /** `ch` belongs to a class the options enable. */
  predicate Allowed(o: Options, ch: char) {
    || (o.includeLowercase && ch in LOWER_CASE)
    || (o.includeUppercase && ch in UPPER_CASE)
    || (o.includeNumbers && ch in NUMBERS)
    || (o.includeSymbols && ch in SYMBOLS)
  }

  /** `chars += ...` for lowercase, uppercase, numbers, symbols, in that order. */
  function Charset(o: Options): (chars: string)
    ensures forall ch :: ch in chars <==> Allowed(o, ch)
    ensures |chars| == |Class(o.includeLowercase, LOWER_CASE)| + |Class(o.includeUppercase, UPPER_CASE)|
                     + |Class(o.includeNumbers, NUMBERS)| + |Class(o.includeSymbols, SYMBOLS)|
    ensures chars == [] <==> !o.includeLowercase && !o.includeUppercase && !o.includeNumbers && !o.includeSymbols
    ensures o.includeLowercase ==> chars[..|LOWER_CASE|] == LOWER_CASE
    ensures var lower := |Class(o.includeLowercase, LOWER_CASE)|;
      o.includeUppercase ==> chars[lower..lower + |UPPER_CASE|] == UPPER_CASE
    ensures var before := |Class(o.includeLowercase, LOWER_CASE)| + |Class(o.includeUppercase, UPPER_CASE)|;
      o.includeNumbers ==> chars[before..before + |NUMBERS|] == NUMBERS
    ensures o.includeSymbols ==> chars[|chars| - |SYMBOLS|..] == SYMBOLS
  {
    var lower := Class(o.includeLowercase, LOWER_CASE);
    var upper := Class(o.includeUppercase, UPPER_CASE);
    var numbers := Class(o.includeNumbers, NUMBERS);
    var symbols := Class(o.includeSymbols, SYMBOLS);
    Blocks(lower, upper, numbers, symbols);
    lower + upper + numbers + symbols
  }

  /** Each part of a four-part concatenation sits at its own offset. */
  lemma Blocks(a: string, b: string, c: string, d: string)
    ensures var s := a + b + c + d;
      && s[..|a|] == a
      && s[|a|..|a| + |b|] == b
      && s[|a| + |b|..|a| + |b| + |c|] == c
      && s[|s| - |d|..] == d
      && forall ch :: ch in s <==> ch in a || ch in b || ch in c || ch in d
  {
    var s := a + b + c + d;
    assert s == a + (b + (c + d));
    assert s[|a|..] == b + (c + d);
    assert s[|a| + |b|..] == c + d;
  }

  /** `chars.charAt(index)`: the character there, or `""` out of range. */
  function CharAt(chars: string, index: int): (r: string)
    ensures |r| <= 1
    ensures r != [] <==> 0 <= index < |chars|
    ensures r != [] ==> r[0] == chars[index]
  {
    if 0 <= index < |chars| then [chars[index]] else ""
  }

  /**
   * The loop of `generatePassword`. Each draw is an index into the character
   * set, or 0 when the set is empty (`Math.random() * 0`).
   */
  method GeneratePassword(o: Options, passwordLength: int, draws: seq<nat>) returns (password: string)
    requires |draws| >= passwordLength
    requires forall i :: 0 <= i < |draws| ==> draws[i] < |Charset(o)| || draws[i] == 0
    ensures Charset(o) != [] ==> |password| == if passwordLength > 0 then passwordLength else 0
    ensures Charset(o) == [] ==> password == []
    ensures forall i :: 0 <= i < |password| ==> password[i] == Charset(o)[draws[i]]
    ensures forall i :: 0 <= i < |password| ==> Allowed(o, password[i])
  {
    var chars := Charset(o);
    password := "";
    var i := 0;
    while i < passwordLength
      invariant 0 <= i <= (if passwordLength > 0 then passwordLength else 0)
      invariant chars != [] ==> |password| == i
      invariant chars == [] ==> password == []
      invariant forall j :: 0 <= j < |password| ==> j < |draws| && password[j] == chars[draws[j]]
    {
      password := password + CharAt(chars, draws[i]);
      i := i + 1;
    }
    forall j | 0 <= j < |password|
      ensures Allowed(o, password[j])
    {
      assert password[j] in chars;
    }
  }

  /** The defaults: length 10 drawn from all 91 characters of the four classes. */
  lemma DefaultsUseEveryClass()
    ensures DEFAULTS.length == 10
    ensures |Charset(DEFAULTS)| == 91
    ensures forall ch :: Allowed(DEFAULTS, ch) <==> ch in LOWER_CASE + UPPER_CASE + NUMBERS + SYMBOLS
  {
  }
}
