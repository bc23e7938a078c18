/** The string helper of the client generator: stripping a namespace prefix from a qualified name. */
module XHelper {

  /** `s.IndexOf(c)`: the position of the first `c` in `s`, or -1 when there is none. */
  function IndexOf(s: string, c: char): (k: int)
    ensures k == -1 <==> c !in s
    ensures k != -1 ==> 0 <= k < |s| && s[k] == c && c !in s[..k]
  {
    if s == [] then -1
    else if s[0] == c then 0
    else
      var k := IndexOf(s[1..], c);
      if k == -1 then -1
      else
        assert s[..k + 1] == [s[0]] + s[1..][..k];
        k + 1
  }

  /**
   * `TrimNs(name)` = `name.Substring(name.IndexOf(':') + 1)`: drops everything up to and
   * including the first colon; a name without a colon is returned unchanged.
   */
  function TrimNs(s: string): (r: string)
    ensures |r| <= |s| && s[|s| - |r|..] == r
    ensures ':' !in s ==> r == s
    ensures ':' in s ==> |r| < |s| && s[|s| - |r| - 1] == ':' && ':' !in s[..|s| - |r| - 1]
  {
    s[IndexOf(s, ':') + 1..]
  }

  /** A string with at most one colon. */
  predicate AtMostOneColon(s: string) {
    forall i, j :: 0 <= i < j < |s| && s[i] == ':' ==> s[j] != ':'
  }

  /** Stripping twice is stripping once, for names with at most one colon. */
  lemma TrimNsIdempotent(s: string)
    requires AtMostOneColon(s)
    ensures TrimNs(TrimNs(s)) == TrimNs(s)
  {
    var r := TrimNs(s);
    if ':' in s {
      var k := |s| - |r| - 1;
      forall j | 0 <= j < |r| ensures r[j] != ':' {
        assert s[k + 1 + j] == r[j];
      }
    }
  }

  /** The first occurrence of `c` is at or before any occurrence. */
  lemma {:induction false} IndexOfAtMost(s: string, c: char, i: nat)
    requires i < |s| && s[i] == c
    ensures 0 <= IndexOf(s, c) <= i
  {
    if s[0] != c {
      IndexOfAtMost(s[1..], c, i - 1);
    }
  }

  /** Conversely, a name that strips to the same result twice has at most one colon. */
  lemma TrimNsIdempotentOnlyIf(s: string)
    requires TrimNs(TrimNs(s)) == TrimNs(s)
    ensures AtMostOneColon(s)
  {
    var r := TrimNs(s);
    assert ':' !in r;
    forall i, j | 0 <= i < j < |s| && s[i] == ':' ensures s[j] != ':' {
      IndexOfAtMost(s, ':', i);
      assert s[j] == r[j - IndexOf(s, ':') - 1];
    }
  }

  /**
   * Only the first prefix goes: "a:b:c" strips to "b:c", and stripping again gives "c", so
   * the operation is not idempotent in general.
   */
  lemma TrimNsNotIdempotent()
    ensures TrimNs("a:b:c") == "b:c"
    ensures TrimNs(TrimNs("a:b:c")) == "c"
  {
    assert IndexOf("a:b:c", ':') == 1;
    assert IndexOf("b:c", ':') == 1;
  }
}
