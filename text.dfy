/** Character-level helpers standing for the Python string operations the
    lang manager relies on: `str.strip()`, `str.startswith("#")` and
    `str.split(sep, 1)`. Strings are sequences of Unicode scalar values. */
module Text {

  /** `c.isspace()` in Python: the characters that `str.strip()` removes. */
  predicate IsSpace(c: char) {
    || ('\t' <= c <= '\r')
    || ('\U{1C}' <= c <= '\U{1F}')
    || c == ' '
    || c == '\U{85}'
    || c == '\U{A0}'
    || c == '\U{1680}'
    || ('\U{2000}' <= c <= '\U{200A}')
    || c == '\U{2028}'
    || c == '\U{2029}'
    || c == '\U{202F}'
    || c == '\U{205F}'
    || c == '\U{3000}'
  }

  /** `s.lstrip()` */
  function TrimLeft(s: string): string
    decreases |s|
  {
    if s != [] && IsSpace(s[0]) then TrimLeft(s[1..]) else s
  }

  /** `s.rstrip()` */
  function TrimRight(s: string): string
    decreases |s|
  {
    if s != [] && IsSpace(s[|s| - 1]) then TrimRight(s[..|s| - 1]) else s
  }

  /** `lstrip` drops the leading whitespace and nothing else: what remains is
      a suffix that is empty or starts with a non-whitespace character. */
  lemma {:induction false} TrimLeftMeaning(s: string)
    ensures var r := TrimLeft(s);
            && |r| <= |s| && r == s[|s| - |r|..]
            && (forall i :: 0 <= i < |s| - |r| ==> IsSpace(s[i]))
            && (r == [] || !IsSpace(r[0]))
    decreases |s|
  {
    if s != [] && IsSpace(s[0]) {
      TrimLeftMeaning(s[1..]);
    }
  }

  /** `rstrip` drops the trailing whitespace and nothing else: what remains
      is a prefix that is empty or ends with a non-whitespace character. */
  lemma {:induction false} TrimRightMeaning(s: string)
    ensures var r := TrimRight(s);
            && |r| <= |s| && r == s[..|r|]
            && (forall i :: |r| <= i < |s| ==> IsSpace(s[i]))
            && (r == [] || !IsSpace(r[|r| - 1]))
    decreases |s|
  {
    if s != [] && IsSpace(s[|s| - 1]) {
      TrimRightMeaning(s[..|s| - 1]);
    }
  }

  /** `s.strip()` */
  function Strip(s: string): string {
    TrimRight(TrimLeft(s))
  }

  /** `s.startswith("#")` */
  predicate StartsWithHash(s: string) {
    |s| > 0 && s[0] == '#'
  }

  /** `s.index(c)`: the position of the first occurrence of `c`. */
  function IndexOf(s: string, c: char): (i: nat)
    requires c in s
    ensures i < |s| && s[i] == c
    ensures c !in s[..i]
  {
    if s[0] == c then 0
    else
      assert c in s[1..] by {
        var j :| 0 <= j < |s| && s[j] == c;
        assert s[1..][j - 1] == c;
      }
      1 + IndexOf(s[1..], c)
  }

  /** Stripping leaves nothing exactly when every character is whitespace. */
  lemma StripEmptyIffBlank(s: string)
    ensures Strip(s) == [] <==> forall i :: 0 <= i < |s| ==> IsSpace(s[i])
  {
    TrimLeftMeaning(s);
    TrimRightMeaning(TrimLeft(s));
  }

  /** The stripped text starts with `#` exactly when the first character
      that is not whitespace is `#`. */
  lemma StripStartsWithHash(s: string)
    ensures StartsWithHash(Strip(s)) <==> (TrimLeft(s) != [] && TrimLeft(s)[0] == '#')
  {
    TrimLeftMeaning(s);
    var l := TrimLeft(s);
    TrimRightMeaning(l);
    if l != [] {
      assert !IsSpace(l[0]);
      assert Strip(s) != [] && Strip(s)[0] == l[0];
    }
  }

  /** Leading whitespace of a concatenation: if the first part is all
      whitespace it vanishes, otherwise the second part is untouched. */
  lemma {:induction false} TrimLeftAppend(a: string, b: string)
    ensures TrimLeft(a + b) == if TrimLeft(a) == [] then TrimLeft(b) else TrimLeft(a) + b
    decreases |a|
  {
    if a == [] {
      assert a + b == b;
    } else if IsSpace(a[0]) {
      assert (a + b)[1..] == a[1..] + b;
      TrimLeftAppend(a[1..], b);
    } else {
      assert (a + b)[0] == a[0];
    }
  }

  /** In a line `key=value`, whether the stripped line starts with `#`
      depends on the key alone (the `=` is never whitespace). */
  lemma HashLeadOfEntry(key: string, val: string)
    ensures StartsWithHash(Strip(key + "=" + val)) <==> (TrimLeft(key) != [] && TrimLeft(key)[0] == '#')
  {
    var s := key + "=" + val;
    assert s == key + ("=" + val);
    TrimLeftAppend(key, "=" + val);
    assert TrimLeft("=" + val) == "=" + val;
    StripStartsWithHash(s);
  }
}
