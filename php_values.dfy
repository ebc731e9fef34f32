/** PHP value conventions that the content list code relies on. */
module PhpValues {

  /** A value that may be missing: PHP's `null` beside a value. */
  datatype Option<T> = None | Some(value: T) {
    predicate IsFailure() {
      None?
    }

    function PropagateFailure<U>(): Option<U>
      requires None?
    {
      None
    }

    function Extract(): T
      requires Some?
    {
      value
    }
  }

  /** PHP's `empty($s)` and `!$s` on a string: only "" and "0" are falsy. */
  predicate Falsy(s: string) {
    s == "" || s == "0"
  }

  /** `get_post_meta($postId, $key, true)`: the stored value, or "" when the key is absent. */
  function MetaValue(store: map<string, string>, key: string): (v: string)
    ensures key !in store ==> Falsy(v)
  {
    if key in store then store[key] else ""
  }

  predicate IsDigit(c: char) {
    '0' <= c <= '9'
  }

  predicate AllDigits(s: string) {
    forall i :: 0 <= i < |s| ==> IsDigit(s[i])
  }

  function Digit(d: nat): (c: char)
    requires d < 10
    ensures IsDigit(c) && (c as int) - ('0' as int) == d
  {
    (('0' as int) + d) as char
  }

  /** The decimal text PHP produces when an integer is concatenated to a string. */
  function Dec(n: nat): (s: string)
    ensures |s| > 0 && AllDigits(s)
    ensures n >= 10 ==> s[0] != '0'
    decreases n
  {
    if n < 10 then [Digit(n)] else Dec(n / 10) + [Digit(n % 10)]
  }

  /** Reads a run of decimal digits back as a number; the inverse of Dec. */
  function ParseDec(s: string): nat
    requires AllDigits(s)
  {
    if s == [] then 0 else ParseDec(s[..|s| - 1]) * 10 + ((s[|s| - 1] as int) - ('0' as int))
  }

  lemma {:induction false} ParseDecOfDec(n: nat)
    ensures ParseDec(Dec(n)) == n
  {
    if n >= 10 {
      var s := Dec(n / 10);
      assert (s + [Digit(n % 10)])[..|s|] == s;
      ParseDecOfDec(n / 10);
    }
  }

  lemma DecInjective(m: nat, n: nat)
    ensures Dec(m) == Dec(n) ==> m == n
  {
    ParseDecOfDec(m);
    ParseDecOfDec(n);
  }
}
