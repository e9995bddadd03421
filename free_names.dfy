/**
 * Probing for a free name. Both key normalisers try `prefix . m` for
 * `m = start, start + 1, ...` until the name is not taken; this module defines
 * the number such a loop stops at and why it always stops.
 */
module FreeNames {
  import opened PhpValues

  /** The length of the longest name; longer names cannot be taken. */
  function MaxLength(names: seq<string>): (n: nat)
    ensures forall t :: t in names ==> |t| <= n
  {
    if names == [] then 0
    else
      var m := MaxLength(names[1..]);
      if |names[0]| > m then |names[0]| else m
  }

  /** A numeral of at most `k` digits stands for a number below 10^k. */
  lemma {:induction false} ShortNumeralIsSmall(n: nat, k: nat)
    requires |NatToString(n)| <= k
    ensures n < Pow10(k)
  {
    if n >= 10 {
      assert NatToString(n) == NatToString(n / 10) + [DigitChar(n % 10)];
      ShortNumeralIsSmall(n / 10, k - 1);
      assert n / 10 + 1 <= Pow10(k - 1);
      assert n < 10 * (n / 10 + 1);
    } else {
      assert Pow10(k) == 10 * Pow10(k - 1);
    }
  }

  /** Only numbers below 10^(longest name) can give a taken name. */
  lemma NameBound(names: seq<string>, prefix: string, m: int)
    requires prefix + IntToString(m) in names
    ensures m < Pow10(MaxLength(names))
  {
    if m >= 0 {
      assert |prefix + IntToString(m)| <= MaxLength(names);
      ShortNumeralIsSmall(m, MaxLength(names));
    }
  }

  /**
   * The first `m >= start` whose name `prefix . m` is not among `names`: where a
   * loop probing `prefix . start`, `prefix . (start + 1)`, ... stops.
   */
  function FirstFree(names: seq<string>, prefix: string, start: int): (m: int)
    ensures m >= start && prefix + IntToString(m) !in names
    ensures forall j :: start <= j < m ==> prefix + IntToString(j) in names
    decreases Pow10(MaxLength(names)) - start
  {
    if prefix + IntToString(start) in names then
      NameBound(names, prefix, start);
      FirstFree(names, prefix, start + 1)
    else
      start
  }

  /** The least free number is unique: any free `m` with only taken names below it is it. */
  lemma FirstFreeIsLeast(names: seq<string>, prefix: string, start: int, m: int)
    requires start <= m && prefix + IntToString(m) !in names
    requires forall j :: start <= j < m ==> prefix + IntToString(j) in names
    ensures FirstFree(names, prefix, start) == m
  {
  }
}
