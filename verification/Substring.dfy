/** `find_substring` of pointers/task4.c. A string is its characters before the NUL; reading the
    NUL is reaching the length. */
module Substring {
  import opened Common

  predicate Occurs(str: string, sub: string, i: nat) {
    i + |sub| <= |str| && forall k :: 0 <= k < |sub| ==> str[i + k] == sub[k]
  }

  /** An occurrence splits the string in three. */
  lemma OccursExactly(str: string, sub: string, i: nat)
    ensures Occurs(str, sub, i) <==> exists before: string, after: string :: |before| == i && before + sub + after == str
  {
    if Occurs(str, sub, i) {
      assert str[..i] + sub + str[i + |sub|..] == str;
    }
    if before: string, after: string :| |before| == i && before + sub + after == str {
      assert forall k :: 0 <= k < |sub| ==> sub[k] == str[i + k];
    }
  }

  /** The least position below the bound where `sub` occurs. */
  function LeastBelow(str: string, sub: string, bound: nat): (r: Option<nat>)
    ensures r.Some? ==> r.value < bound && Occurs(str, sub, r.value)
    ensures forall j :: 0 <= j < (if r.Some? then r.value else bound) ==> !Occurs(str, sub, j)
  {
    if bound == 0 then None
    else
      var before := LeastBelow(str, sub, bound - 1);
      if before.Some? then before
      else if Occurs(str, sub, bound - 1) then Some(bound - 1) else None
  }

  /** `strstr` (section 7.24.5.7 of ISO/IEC 9899:2011), which also looks at the end of the string. */
  function StrStr(str: string, sub: string): Option<nat> {
    LeastBelow(str, sub, |str| + 1)
  }

  lemma LeastIs(str: string, sub: string, bound: nat, i: nat)
    requires i < bound && Occurs(str, sub, i)
    requires forall j :: 0 <= j < i ==> !Occurs(str, sub, j)
    ensures LeastBelow(str, sub, bound) == Some(i)
  {
    var r := LeastBelow(str, sub, bound);
    assert r.Some?;
    assert r.value >= i && r.value <= i;
  }

  /** `steps` counts the rounds of the inner loop. */
  method FindSubstring(str: string, sub: string) returns (found: Option<nat>, ghost steps: nat)
    ensures found.Some? ==>
              && found.value < |str| && Occurs(str, sub, found.value)
              && forall j :: 0 <= j < found.value ==> !Occurs(str, sub, j)
    ensures found.None? ==> forall j :: 0 <= j < |str| ==> !Occurs(str, sub, j)
    ensures found == LeastBelow(str, sub, |str|)
    ensures steps <= |str| * |sub|
  {
    steps := 0;
    var p := 0;
    while p < |str|
      invariant 0 <= p <= |str|
      invariant forall j :: 0 <= j < p ==> !Occurs(str, sub, j)
      invariant steps <= p * |sub|
    {
      var begin, q := p, 0;
      while p < |str| && q < |sub| && str[p] == sub[q]
        invariant p == begin + q <= |str| && q <= |sub|
        invariant forall k :: 0 <= k < q ==> str[begin + k] == sub[k]
        invariant steps <= begin * |sub| + q
      {
        p, q, steps := p + 1, q + 1, steps + 1;
      }
      if q == |sub| {
        LeastIs(str, sub, |str|, begin);
        OneMoreRound(begin, |str|, |sub|);
        return Some(begin), steps;
      }
      OneMoreRound(begin, begin + 1, |sub|);
      p := begin + 1;
    }
    return None, steps;
  }

  lemma OneMoreRound(begin: nat, next: nat, n: nat)
    requires begin < next
    ensures begin * n + n <= next * n
  {
    assert (next - begin - 1) * n >= 0;
    assert next * n == begin * n + n + (next - begin - 1) * n;
  }

  /** The function is `strstr` except that it finds no empty string in an empty string. */
  lemma AgreesWithStrStrExactly(str: string, sub: string)
    ensures LeastBelow(str, sub, |str|) == StrStr(str, sub) <==> !(str == "" && sub == "")
  {
    if sub == "" && str != "" {
      LeastIs(str, sub, |str|, 0);
    }
    if sub == "" && str == "" {
      LeastIs(str, sub, 1, 0);
    }
  }
}
