/** Keys and versions that the store accepts, and enough of them. */
module StoredNames {
  import opened ObjectModel

  const MAX_SEMVER_BYTES: nat := 256

  predicate KeyEdge(c: char) {
    'a' <= c <= 'z' || '0' <= c <= '9'
  }

  /** The pattern of keys. */
  predicate ValidKey(key: string) {
    && 3 <= |key| <= 40 && KeyEdge(key[0]) && KeyEdge(key[|key| - 1])
    && forall i :: 0 <= i < |key| ==> KeyEdge(key[i]) || key[i] in "._-"
  }

  predicate Numeral(s: string) {
    s != "" && (|s| > 1 ==> s[0] != '0') && forall i :: 0 <= i < |s| ==> '0' <= s[i] <= '9'
  }

  /** Versions `v1.0.N`, which are strict semantic versions while they are not too long. */
  predicate PatchRelease(version: string) {
    5 < |version| <= MAX_SEMVER_BYTES && version[..5] == "v1.0." && Numeral(version[5..])
  }

  predicate Accepted(id: VersionId) {
    ValidKey(id.key) && PatchRelease(id.version)
  }

  function Digits(n: nat): (s: string)
    ensures Numeral(s) && (n > 0 ==> s[0] != '0')
  {
    var last := ('0' as int + n % 10) as char;
    if n < 10 then [last] else Digits(n / 10) + [last]
  }

  function Patch(n: nat): VersionId {
    VersionId("lib", "v1.0." + Digits(n))
  }

  lemma {:induction false} DigitsDiffer(m: nat, n: nat)
    requires m < n
    ensures Digits(m) != Digits(n) && |Digits(m)| <= |Digits(n)|
    decreases n
  {
    if n >= 10 {
      var d, e := Digits(m), Digits(n);
      assert e[..|e| - 1] == Digits(n / 10);
      if m >= 10 {
        assert d[..|d| - 1] == Digits(m / 10);
        if m / 10 < n / 10 {
          DigitsDiffer(m / 10, n / 10);
        }
      }
    }
  }

  lemma DigitsGrow(m: nat, n: nat)
    requires m <= n
    ensures |Digits(m)| <= |Digits(n)|
  {
    if m < n {
      DigitsDiffer(m, n);
    }
  }

  /** The patch releases of one key are accepted while their numbers are short enough, and they differ. */
  lemma PatchesAreAccepted(m: nat, n: nat)
    requires m <= n
    ensures (|Digits(n)| <= MAX_SEMVER_BYTES - 5 ==> Accepted(Patch(m))) && Patch(m).key == Patch(n).key && (m < n ==> Patch(m) != Patch(n))
  {
    DigitsGrow(m, n);
    if m < n {
      DigitsDiffer(m, n);
    }
    assert Patch(m).version[5..] == Digits(m) && Patch(n).version[5..] == Digits(n);
  }
}
