/** `parseSshPort`: recovering the host port of a container's SSH mapping from
    the `Ports` column of `docker ps`, by the fixed regular expression
    `0\.0\.0\.0:(\d+)->22\/tcp`, and writing a port back in decimal. */
module PortMapping {
  import opened Wrappers

  /** The literal text before the captured digits. */
  const HostPrefix: string := "0.0.0.0:"
  /** The literal text after the captured digits. */
  const GuestSuffix: string := "->22/tcp"

  /** `\d`: the ASCII decimal digits only. */
  predicate IsDigit(c: char)
  {
    '0' <= c <= '9'
  }

  predicate AllDigits(d: string)
  {
    forall k :: 0 <= k < |d| ==> IsDigit(d[k])
  }

  /** `parseInt(d, 10)` on a string of digits: its decimal value. */
  function DecimalValue(d: string): nat
    requires AllDigits(d)
  {
    if d == [] then 0
    else DecimalValue(d[..|d| - 1]) * 10 + (d[|d| - 1] as int - '0' as int)
  }

  function DigitChar(n: nat): (c: char)
    requires n < 10
    ensures IsDigit(c) && c as int - '0' as int == n
  {
    ('0' as int + n) as char
  }

  /** `${n}`: the decimal text of a natural number, without leading zeros. */
  function ToDecimal(n: nat): (r: string)
    ensures |r| > 0 && AllDigits(r)
    ensures |r| > 1 ==> r[0] != '0'
  {
    if n < 10 then [DigitChar(n)] else ToDecimal(n / 10) + [DigitChar(n % 10)]
  }

  /** Reading the decimal text of `n` gives `n` back. */
  lemma {:induction false} DecimalRoundTrip(n: nat)
    ensures DecimalValue(ToDecimal(n)) == n
  {
    var r := ToDecimal(n);
    if n >= 10 {
      DecimalRoundTrip(n / 10);
      assert r[..|r| - 1] == ToDecimal(n / 10);
    }
  }

  /** The length of the run of digits of `s` that starts at index `i`
      (`\d+` is greedy). */
  function DigitRun(s: string, i: nat): (k: nat)
    requires i <= |s|
    ensures i + k <= |s| && AllDigits(s[i..i + k])
    ensures i + k == |s| || !IsDigit(s[i + k])
    decreases |s| - i
  {
    if i < |s| && IsDigit(s[i]) then
      var rest := DigitRun(s, i + 1);
      assert s[i..i + 1 + rest][1..] == s[i + 1..i + 1 + rest];
      1 + rest
    else 0
  }

  /** The pattern matches at index `i`, capturing the maximal digit run that
      follows the host prefix. */
  predicate MatchesAt(s: string, i: nat)
  {
    && i + |HostPrefix| <= |s|
    && s[i..i + |HostPrefix|] == HostPrefix
    && var k := DigitRun(s, i + |HostPrefix|);
    && k > 0
    && i + |HostPrefix| + k + |GuestSuffix| <= |s|
    && s[i + |HostPrefix| + k..i + |HostPrefix| + k + |GuestSuffix|] == GuestSuffix
  }

  /** The captured group `(\d+)` of a match at `i`. */
  function Captured(s: string, i: nat): (d: string)
    requires MatchesAt(s, i)
    ensures |d| > 0 && AllDigits(d)
  {
    s[i + |HostPrefix|..i + |HostPrefix| + DigitRun(s, i + |HostPrefix|)]
  }

  /** The leftmost index at or after `i` where the pattern matches, as
      `String.prototype.match` scans. */
  function FindMatch(s: string, i: nat): (r: Option<nat>)
    requires i <= |s|
    ensures r.Some? ==> i <= r.value <= |s| && MatchesAt(s, r.value)
    ensures forall j :: i <= j <= |s| && (r.None? || j < r.value) ==> !MatchesAt(s, j)
    decreases |s| - i
  {
    if MatchesAt(s, i) then Some(i)
    else if i == |s| then None
    else FindMatch(s, i + 1)
  }

  /** `parseSshPort`: the captured digits of the leftmost match, or `null`. */
  function ParseSshPort(portString: string): (r: Option<nat>)
    ensures r.Some? ==> exists i: nat :: i <= |portString| && MatchesAt(portString, i)
    ensures r.None? ==> forall i: nat :: i <= |portString| ==> !MatchesAt(portString, i)
  {
    match FindMatch(portString, 0)
    case None => None
    case Some(i) => Some(DecimalValue(Captured(portString, i)))
  }

  /** `parseSshPort(c.Ports) || 0`: the port recorded for a container; both
      `null` and a parsed `0` are falsy and give `0`. */
  function SshPortOf(ports: string): (port: nat)
    ensures port > 0 <==> ParseSshPort(ports).Some? && ParseSshPort(ports).value > 0
    ensures port > 0 ==> ParseSshPort(ports) == Some(port)
  {
    match ParseSshPort(ports)
    case None => 0
    case Some(n) => if n == 0 then 0 else n
  }

  // ---------------------------------------------------------------------------
  // The regular expression read declaratively

  /** `s` holds, at index `i`, the host prefix, the non-empty digit string `d`
      and the guest suffix. */
  ghost predicate PatternAt(s: string, i: nat, d: string)
  {
    && |d| > 0 && AllDigits(d)
    && i + |HostPrefix| + |d| + |GuestSuffix| <= |s|
    && s[i..i + |HostPrefix| + |d| + |GuestSuffix|] == HostPrefix + d + GuestSuffix
  }

  /** A run of digits that ends in a non-digit (or the end) is the whole run. */
  lemma {:induction false} DigitRunExact(s: string, j: nat, n: nat)
    requires j + n <= |s| && AllDigits(s[j..j + n])
    requires j + n == |s| || !IsDigit(s[j + n])
    ensures DigitRun(s, j) == n
    decreases n
  {
    if n > 0 {
      assert IsDigit(s[j..j + n][0]);
      assert s[j + 1..j + n] == s[j..j + n][1..];
      DigitRunExact(s, j + 1, n - 1);
    }
  }

  lemma ConcatParts(a: string, b: string, c: string)
    ensures (a + b + c)[..|a|] == a
    ensures (a + b + c)[|a|..|a| + |b|] == b
    ensures (a + b + c)[|a| + |b|..] == c
  {
  }

  lemma SliceOfSlice(s: string, i: nat, n: nat, x: nat, y: nat)
    requires i + n <= |s| && x <= y <= n
    ensures s[i..i + n][x..y] == s[i + x..i + y]
  {
    var t, u := s[i..i + n][x..y], s[i + x..i + y];
    assert |t| == |u|;
    forall k | 0 <= k < |t| ensures t[k] == u[k] { }
  }

  /** An occurrence of the pattern is a match capturing its digits. */
  lemma PatternAtMatches(s: string, i: nat, d: string)
    requires PatternAt(s, i, d)
    ensures MatchesAt(s, i) && d == Captured(s, i)
  {
    var p := |HostPrefix|;
    var n := p + |d| + |GuestSuffix|;
    var w := s[i..i + n];
    ConcatParts(HostPrefix, d, GuestSuffix);
    SliceOfSlice(s, i, n, 0, p);
    SliceOfSlice(s, i, n, p, p + |d|);
    SliceOfSlice(s, i, n, p + |d|, n);
    assert s[i + p + |d|] == w[p + |d|] == '-';
    DigitRunExact(s, i + p, |d|);
  }

  /** A match is an occurrence of the pattern with the captured digits. */
  lemma MatchesPatternAt(s: string, i: nat)
    requires MatchesAt(s, i)
    ensures PatternAt(s, i, Captured(s, i))
  {
    var p := |HostPrefix|;
    var k := DigitRun(s, i + p);
    assert s[i..i + p + k + |GuestSuffix|]
        == s[i..i + p] + s[i + p..i + p + k] + s[i + p + k..i + p + k + |GuestSuffix|];
  }

  /** At a given index the pattern can hold for one digit string only: the
      one the matcher captures. */
  lemma PatternAtIff(s: string, i: nat, d: string)
    ensures PatternAt(s, i, d) <==> MatchesAt(s, i) && d == Captured(s, i)
  {
    if PatternAt(s, i, d) {
      PatternAtMatches(s, i, d);
    }
    if MatchesAt(s, i) && d == Captured(s, i) {
      MatchesPatternAt(s, i);
    }
  }

  /** `parseSshPort` finds a port exactly when the string contains the host
      prefix, a non-empty digit string and the guest suffix, in a row; the port
      is the decimal value of the digits of the leftmost such occurrence. */
  lemma ParseSshPortSpec(s: string)
    ensures ParseSshPort(s).Some? <==> exists i: nat, d :: PatternAt(s, i, d)
    ensures ParseSshPort(s).Some? ==>
      exists i: nat, d :: && PatternAt(s, i, d)
                          && ParseSshPort(s).value == DecimalValue(d)
                          && forall j: nat, e :: j < i ==> !PatternAt(s, j, e)
  {
    var r := FindMatch(s, 0);
    if r.Some? {
      var i := r.value;
      PatternAtIff(s, i, Captured(s, i));
      forall j: nat, e | j < i ensures !PatternAt(s, j, e) {
        PatternAtIff(s, j, e);
      }
    } else {
      forall i: nat, d ensures !PatternAt(s, i, d) {
        PatternAtIff(s, i, d);
      }
    }
  }

  /** The mapping that `docker run -p <port>:22` produces is read back as that
      port, whatever follows it (docker lists further mappings after a comma). */
  lemma MappingRoundTrip(port: nat, rest: string)
    ensures ParseSshPort(HostPrefix + ToDecimal(port) + GuestSuffix + rest) == Some(port)
  {
    var d := ToDecimal(port);
    var s := HostPrefix + d + GuestSuffix + rest;
    assert s[0..|HostPrefix| + |d| + |GuestSuffix|] == HostPrefix + d + GuestSuffix;
    assert PatternAt(s, 0, d);
    PatternAtIff(s, 0, d);
    DecimalRoundTrip(port);
  }

  /** The mapping docker prints for port 2207 is read as 2207. */
  lemma MappedPortExample()
    ensures ParseSshPort("0.0.0.0:2207->22/tcp") == Some(2207)
  {
    MappingText2207();
    MappingRoundTrip(2207, "");
  }

  lemma MappingText2207()
    ensures HostPrefix + ToDecimal(2207) + GuestSuffix + "" == "0.0.0.0:2207->22/tcp"
  {
    DecimalText2207();
  }

  lemma DecimalText2207()
    ensures ToDecimal(2207) == "2207"
  {
    assert ToDecimal(2) == "2";
    assert ToDecimal(22) == "22";
    assert ToDecimal(220) == "220";
  }

  /** A port string without a host mapping, such as `80/tcp`, gives no port. */
  lemma NoHostMapping()
    ensures ParseSshPort("80/tcp") == None
    ensures SshPortOf("80/tcp") == 0
  {
    var s := "80/tcp";
    forall i: nat | i <= |s| ensures !MatchesAt(s, i) { }
  }
}
