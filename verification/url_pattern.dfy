/**
 * The form's link check: the fixed pattern
 *   ^(https?://)?(drive.google.com|docs.google.com)/.*$
 * (dots literal, no flags) written out as a string predicate. Without the
 * `s` flag `.` matches any character except the four line terminators, and
 * without the `m` flag `$` matches only at the very end, so the text after
 * the host's `/` must be free of line terminators.
 */
module UrlPattern {

  /** The optional scheme group: absent, `http://` or `https://`. */
  const Schemes: seq<string> := ["", "http://", "https://"]

  /** The two accepted hosts; the match is case-sensitive. */
  const Hosts: seq<string> := ["drive.google.com", "docs.google.com"]

  /** The characters a regular-expression `.` refuses to match. */
  predicate IsLineTerminator(c: char) {
    c == '\n' || c == '\r' || c == '\U{2028}' || c == '\U{2029}'
  }

  predicate NoLineTerminator(s: string) {
    forall i :: 0 <= i < |s| ==> !IsLineTerminator(s[i])
  }

  predicate StartsWith(s: string, p: string) {
    |p| <= |s| && s[..|p|] == p
  }

  /** `s` is `scheme + host + "/"` followed by text `.*$` accepts. */
  predicate MatchesWith(s: string, scheme: string, host: string) {
    var lead := scheme + host + "/";
    StartsWith(s, lead) && NoLineTerminator(s[|lead|..])
  }

  /** The pattern as its alternatives: some scheme and some host fit `s`. */
  ghost predicate MatchesPattern(s: string) {
    exists i, j :: 0 <= i < |Schemes| && 0 <= j < |Hosts| && MatchesWith(s, Schemes[i], Hosts[j])
  }

  /** Drops a leading `https://` or `http://`, if any. */
  function StripScheme(s: string): string {
    if StartsWith(s, "https://") then s[8..]
    else if StartsWith(s, "http://") then s[7..]
    else s
  }

  /** What must follow the scheme: a host, `/`, and a tail free of line terminators. */
  predicate HostThenPath(rest: string) {
    || (StartsWith(rest, "drive.google.com/") && NoLineTerminator(rest[17..]))
    || (StartsWith(rest, "docs.google.com/") && NoLineTerminator(rest[16..]))
  }

  /** `validateUrl`: the deterministic reading of the pattern. */
  predicate ValidateUrl(s: string) {
    HostThenPath(StripScheme(s))
  }

  /** `p + t` begins with `p`, and dropping `p` leaves `t`. */
  lemma StartsWithConcat(p: string, t: string)
    ensures StartsWith(p + t, p)
    ensures (p + t)[|p|..] == t
  {
    assert (p + t)[..|p|] == p;
  }

  /** A scheme followed by text beginning with `d` loses exactly that scheme. */
  lemma StripSchemeOf(i: nat, x: string)
    requires i < |Schemes|
    requires |x| > 0 && x[0] == 'd'
    ensures StripScheme(Schemes[i] + x) == x
  {
    var s := Schemes[i] + x;
    StartsWithConcat(Schemes[i], x);
    if i == 0 {
      assert s[0] == 'd';
    } else if i == 1 {
      assert s[4] == ':';
    }
  }

  /** After a host and `/`, `HostThenPath` only asks that the tail be free of line breaks. */
  lemma HostBranch(rest: string, j: nat)
    requires j < |Hosts|
    requires StartsWith(rest, Hosts[j] + "/")
    ensures HostThenPath(rest) <==> NoLineTerminator(rest[|Hosts[j]| + 1..])
  {
    assert rest[1] == (Hosts[j] + "/")[1];
  }

  /** Scheme, host, `/` and a tail: `ValidateUrl` looks only at the tail. */
  lemma AlternativeAccepted(i: nat, j: nat, tail: string)
    requires i < |Schemes| && j < |Hosts|
    ensures ValidateUrl(Schemes[i] + Hosts[j] + "/" + tail) <==> NoLineTerminator(tail)
  {
    var rest := Hosts[j] + "/" + tail;
    assert Schemes[i] + Hosts[j] + "/" + tail == Schemes[i] + rest;
    assert rest[0] == Hosts[j][0];
    StripSchemeOf(i, rest);
    StartsWithConcat(Hosts[j] + "/", tail);
    HostBranch(rest, j);
  }

  /** Every alternative the pattern offers passes `ValidateUrl`. */
  lemma ValidFromMatch(s: string, i: nat, j: nat)
    requires i < |Schemes| && j < |Hosts|
    requires MatchesWith(s, Schemes[i], Hosts[j])
    ensures ValidateUrl(s)
  {
    var lead := Schemes[i] + Hosts[j] + "/";
    var tail := s[|lead|..];
    assert s == lead + tail;
    AlternativeAccepted(i, j, tail);
  }

  /** Every string is one of the schemes followed by what `StripScheme` leaves. */
  lemma SchemeOf(s: string) returns (i: nat)
    ensures i < |Schemes| && s == Schemes[i] + StripScheme(s)
  {
    if StartsWith(s, "https://") {
      i := 2;
    } else if StartsWith(s, "http://") {
      i := 1;
    } else {
      i := 0;
    }
    assert s == s[..|Schemes[i]|] + s[|Schemes[i]|..];
  }

  /** Text `HostThenPath` accepts begins with one of the hosts and `/`, then a clean tail. */
  lemma HostOf(rest: string) returns (j: nat)
    requires HostThenPath(rest)
    ensures j < |Hosts| && StartsWith(rest, Hosts[j] + "/")
    ensures NoLineTerminator(rest[|Hosts[j]| + 1..])
  {
    j := if StartsWith(rest, "drive.google.com/") then 0 else 1;
  }

  /** A scheme, then a host with `/`, then a clean tail, is one alternative of the pattern. */
  lemma MatchFromParts(scheme: string, rest: string, host: string)
    requires StartsWith(rest, host + "/")
    requires NoLineTerminator(rest[|host| + 1..])
    ensures MatchesWith(scheme + rest, scheme, host)
  {
    var s := scheme + rest;
    var lead := scheme + host + "/";
    assert lead == scheme + (host + "/");
    assert s[..|lead|] == scheme + rest[..|host| + 1];
    assert s[|lead|..] == rest[|host| + 1..];
  }

  /** Whatever `ValidateUrl` accepts, some alternative of the pattern matches. */
  lemma MatchFromValid(s: string)
    requires ValidateUrl(s)
    ensures MatchesPattern(s)
  {
    var i := SchemeOf(s);
    var j := HostOf(StripScheme(s));
    MatchFromParts(Schemes[i], StripScheme(s), Hosts[j]);
  }

  /** The one-pass check accepts exactly the strings the pattern matches. */
  lemma ValidateUrlMatchesPattern(s: string)
    ensures ValidateUrl(s) <==> MatchesPattern(s)
  {
    if MatchesPattern(s) {
      var i: nat, j: nat :| i < |Schemes| && j < |Hosts| && MatchesWith(s, Schemes[i], Hosts[j]);
      ValidFromMatch(s, i, j);
    }
    if ValidateUrl(s) {
      MatchFromValid(s);
    }
  }

  /** A scheme and host with no `/` after the host is refused. */
  lemma RejectsBareHost(i: nat, j: nat)
    requires i < |Schemes| && j < |Hosts|
    ensures !ValidateUrl(Schemes[i] + Hosts[j])
  {
    var host := Hosts[j];
    assert host[0] == 'd';
    StripSchemeOf(i, host);
    if j == 0 {
      assert host[1] == 'r';
    }
  }

  /** An accepted link begins with a lower-case `h` (a scheme) or `d` (a host). */
  lemma AcceptedStartsLowerCase(s: string)
    requires ValidateUrl(s)
    ensures |s| > 0 && (s[0] == 'h' || s[0] == 'd')
  {
  }

  /** A sample link without its trailing `/` is refused. */
  lemma RejectsBareDriveLink()
    ensures !ValidateUrl("https://drive.google.com")
  {
    var link := Schemes[2] + Hosts[0];
    RejectsBareHost(2, 0);
    assert link == "https://drive.google.com";
  }

  /** A sample link without a scheme is accepted. */
  lemma AcceptsSchemelessLink()
    ensures ValidateUrl("drive.google.com/x")
  {
    var link := Schemes[0] + Hosts[0] + "/" + "x";
    AlternativeAccepted(0, 0, "x");
    assert link == "drive.google.com/x";
  }

  /** The match is case-sensitive: a host with a capital letter is refused. */
  lemma RejectsCapitalisedHost()
    ensures !ValidateUrl("drive.Google.com/x")
  {
    var s := "drive.Google.com/x";
    assert StripScheme(s) == s by {
      assert s[0] != 'h';
    }
    assert s[6] != "drive.google.com/"[6];
    assert s[1] != "docs.google.com/"[1];
  }
}
