/** Kernel/strings.c: the kernel's own `strlen` and `strcpy`.
    A `char *` is an `array?<char>` (null is NULL); a C string is the
    prefix of the array before its first NUL. */
module KernelStrings {

  /** Index of the first NUL of `s`; the C string stored in `s` is `s[..NulIndex(s)]`. */
  function NulIndex(s: seq<char>): (n: nat)
    requires '\0' in s
    ensures n < |s| && s[n] == '\0'
    ensures forall i :: 0 <= i < n ==> s[i] != '\0'
  {
    if s[0] == '\0' then 0 else 1 + NulIndex(s[1..])
  }

  /** The C string held by `s`. */
  function CString(s: seq<char>): (r: seq<char>)
    requires '\0' in s
    ensures '\0' !in r && |r| < |s| && r + ['\0'] == s[..|r| + 1]
  {
    s[..NulIndex(s)]
  }

  /** `strlen`: 0 for NULL, otherwise the position of the first NUL. */
  method Strlen(str: array?<char>) returns (n: nat)
    requires str != null ==> '\0' in str[..]
    ensures str == null ==> n == 0
    ensures str != null ==> n < str.Length && str[n] == '\0'
    ensures str != null ==> forall i :: 0 <= i < n ==> str[i] != '\0'
  {
    if str == null {
      return 0;
    }
    ghost var k := NulIndex(str[..]);
    n := 0;
    while str[n] != '\0'
      invariant 0 <= n <= k
      invariant forall i :: 0 <= i < n ==> str[i] != '\0'
      decreases k - n
    {
      n := n + 1;
    }
  }

  /** `strcpy`: copies `src` up to and including its NUL into `dest` and
      returns `dest`; with a NULL argument nothing is written.  `dest` must
      have room for the copy; the self-copy, which leaves the string as it
      was, is excluded so that the two arrays can be framed apart. */
  method Strcpy(dest: array?<char>, src: array?<char>) returns (r: array?<char>)
    requires src != null ==> '\0' in src[..]
    requires dest != null && src != null ==> dest != src && NulIndex(src[..]) < dest.Length
    modifies dest
    ensures r == dest
    ensures dest == null || src == null ==> dest == null || dest[..] == old(dest[..])
    ensures dest != null && src != null ==>
              var n := NulIndex(src[..]);
              dest[..n + 1] == src[..n + 1] && dest[n + 1..] == old(dest[n + 1..])
  {
    r := dest;
    if dest == null || src == null {
      return;
    }
    ghost var n := NulIndex(src[..]);
    var i := 0;
    while true
      invariant 0 <= i <= n
      invariant dest[..i] == src[..i]
      invariant dest[i..] == old(dest[i..])
      decreases n - i
    {
      var c := src[i];
      dest[i] := c;
      if c == '\0' {
        assert i == n;
        assert dest[..i + 1] == src[..i + 1];
        assert dest[i + 1..] == old(dest[i + 1..]);
        return;
      }
      i := i + 1;
    }
  }
}
