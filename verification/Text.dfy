// Looking for characters in strings.
module Text {

  // How many characters come before the first c: find_first_of, with the length for npos.
  function Until(s: string, c: char): (n: nat)
    ensures n <= |s| && c !in s[..n] && (n < |s| ==> s[n] == c)
  {
    if s == "" || s[0] == c then 0 else 1 + Until(s[1..], c)
  }

  lemma {:induction false} UntilFound(item: string, c: char, rest: string)
    requires c !in item
    ensures Until(item + [c] + rest, c) == |item|
    ensures Until(item, c) == |item|
  {
    if item != "" {
      UntilFound(item[1..], c, rest);
      assert (item + [c] + rest)[1..] == item[1..] + [c] + rest;
    }
  }

  lemma UntilAt(s: string, c: char, k: nat)
    requires k < |s| && s[k] == c && c !in s[..k]
    ensures Until(s, c) == k
  {
    hide Until;
    UntilFound(s[..k], c, s[k + 1..]);
    assert s == s[..k] + [c] + s[k + 1..];
  }

  lemma UntilEnd(s: string, c: char)
    ensures c in s <==> Until(s, c) < |s|
  {
    hide Until;
    assert s[..|s|] == s;
  }

  // Cutting a concatenation inside its first part.
  lemma CutFirst(a: string, b: string, k: nat)
    requires k <= |a|
    ensures (a + b)[..k] == a[..k] && (a + b)[k..] == a[k..] + b
    ensures k < |a| ==> (a + b)[k] == a[k]
  {
  }
}
