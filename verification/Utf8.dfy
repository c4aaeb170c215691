/** UTF-8 on strings of bytes (characters below 256), and cutting a text without splitting a character. */
module Utf8 {

  predicate Tail(c: char) {
    0x80 <= c as int <= 0xBF
  }

  /** The length of the encoded character at the front, or 0 if there is none (section 4 of RFC 3629). */
  function FirstWidth(s: string): (n: nat)
    ensures n <= 4 && n <= |s|
  {
    if s == "" then 0
    else
      var a := s[0] as int;
      if a <= 0x7F then 1
      else if |s| < 2 then 0
      else
        var b := s[1] as int;
        if 0xC2 <= a <= 0xDF && Tail(s[1]) then 2
        else if |s| < 3 || !Tail(s[2]) then 0
        else if (a == 0xE0 && 0xA0 <= b <= 0xBF) || (a == 0xED && 0x80 <= b <= 0x9F)
             || ((0xE1 <= a <= 0xEC || 0xEE <= a <= 0xEF) && Tail(s[1])) then 3
        else if |s| < 4 || !Tail(s[3]) then 0
        else if (a == 0xF0 && 0x90 <= b <= 0xBF) || (a == 0xF4 && 0x80 <= b <= 0x8F) || (0xF1 <= a <= 0xF3 && Tail(s[1])) then 4
        else 0
  }

  predicate Valid(s: string) {
    s == "" || (FirstWidth(s) > 0 && Valid(s[FirstWidth(s)..]))
  }

  /** Shorten the text until what is left is valid. */
  function ValidPrefix(s: string, limit: nat): string
    requires limit <= |s|
  {
    if limit == 0 || Valid(s[..limit]) then s[..limit] else ValidPrefix(s, limit - 1)
  }

  lemma {:induction false} PrefixIsLongest(s: string, limit: nat)
    requires limit <= |s|
    ensures var p := ValidPrefix(s, limit); Valid(p) && p <= s && forall k :: 0 <= k <= limit && Valid(s[..k]) ==> k <= |p|
  {
    if limit > 0 && !Valid(s[..limit]) {
      PrefixIsLongest(s, limit - 1);
    }
  }

  /** A valid text has a valid prefix at most three bytes below any length. */
  lemma {:induction false} CutLosesLittle(s: string, limit: nat) returns (k: nat)
    requires Valid(s) && limit <= |s|
    ensures limit <= k + 3 && k <= limit && Valid(s[..k])
    decreases |s|
  {
    var n := FirstWidth(s);
    if limit == 0 || limit < n {
      k := 0;
    } else {
      var rest := CutLosesLittle(s[n..], limit - n);
      k := n + rest;
      assert FirstWidth(s[..k]) == n;
      assert s[..k][n..] == s[n..][..rest];
    }
  }

  /** So cutting a valid text keeps it valid and takes at most three bytes more than the limit asks for. */
  lemma CutKeepsValid(s: string, limit: nat)
    requires Valid(s) && limit <= |s|
    ensures var p := ValidPrefix(s, limit); Valid(p) && p <= s && limit <= |p| + 3 && |p| <= limit
  {
    PrefixIsLongest(s, limit);
    var k := CutLosesLittle(s, limit);
    PrefixWithin(s, limit);
  }

  lemma {:induction false} PrefixWithin(s: string, limit: nat)
    requires limit <= |s|
    ensures |ValidPrefix(s, limit)| <= limit
  {
    if limit > 0 && !Valid(s[..limit]) {
      PrefixWithin(s, limit - 1);
    }
  }
}
