/** The composite names of server/discovery/discovery_model.go and the list encoding of utils/common_util.go. */
module Names {

  const SERVICE_LINK := "@@"
  const CLUSTER_LINK := "$$"
  const INSTANCE_LINK := "=>"

  function ParseServiceName(name: string, group: string): string {
    name + SERVICE_LINK + group
  }

  function ParseClusterName(serviceName: string, clusterName: string): string {
    serviceName + CLUSTER_LINK + clusterName
  }

  function ParseServiceClusterList(name: string): string {
    name + "_cluster_list"
  }

  /** port is already an int32; see Int32. */
  function ParseInstanceKey(serviceName: string, clusterName: string, host: string, port: int): string {
    ParseClusterName(serviceName, clusterName) + INSTANCE_LINK + (host + ":" + Decimal(port))
  }

  /** The conversion int32(int64). */
  function Int32(x: int): (r: int)
    ensures -0x8000_0000 <= r < 0x8000_0000 && (x - r) % 0x1_0000_0000 == 0
    ensures -0x8000_0000 <= x < 0x8000_0000 ==> r == x
  {
    (x + 0x8000_0000) % 0x1_0000_0000 - 0x8000_0000
  }

  lemma Int32Wraps(x: int)
    ensures Int32(x + 0x1_0000_0000) == Int32(x)
  {
    assert (x + 0x1_0000_0000 + 0x8000_0000) % 0x1_0000_0000 == (x + 0x8000_0000) % 0x1_0000_0000;
  }

  // ---- %d ---------------------------------------------------------------------------------

  function Digit(d: int): char
    requires 0 <= d < 10
  {
    '0' + d as char
  }

  function Digits(n: nat): (s: string)
    ensures |s| > 0
  {
    if n < 10 then [Digit(n)] else Digits(n / 10) + [Digit(n % 10)]
  }

  function Decimal(i: int): string {
    if i < 0 then "-" + Digits(-i) else Digits(i)
  }

  lemma {:induction false} DigitsInjective(m: nat, n: nat)
    requires Digits(m) == Digits(n)
    ensures m == n
  {
    if m >= 10 && n >= 10 {
      assert Digits(m)[..|Digits(m)| - 1] == Digits(m / 10);
      assert Digits(n)[..|Digits(n)| - 1] == Digits(n / 10);
      DigitsInjective(m / 10, n / 10);
    }
    assert Digits(m)[|Digits(m)| - 1] == Digit(m % 10);
    assert Digits(n)[|Digits(n)| - 1] == Digit(n % 10);
  }

  /** A text of digits read in base ten. */
  function Read(s: string): int {
    if s == "" then 0 else 10 * Read(s[..|s| - 1]) + (s[|s| - 1] as int - '0' as int)
  }

  lemma {:induction false} DigitsRead(n: nat)
    ensures Read(Digits(n)) == n
  {
    if n < 10 {
      assert Digits(n)[..0] == "";
    } else {
      DigitsRead(n / 10);
      assert Digits(n)[..|Digits(n)| - 1] == Digits(n / 10);
    }
  }

  /** The text of an integer is its digits without leading zeros, after a minus sign for a negative one. */
  lemma DecimalRead(i: int)
    ensures i >= 0 ==> Read(Decimal(i)) == i && (i > 0 ==> Decimal(i)[0] != '0')
    ensures i < 0 ==> Decimal(i)[0] == '-' && Read(Decimal(i)[1..]) == -i && Decimal(i)[1] != '0'
  {
    var n := if i < 0 then -i else i;
    DigitsRead(n);
    if n > 0 { NoLeadingZero(n); }
    assert i < 0 ==> Decimal(i)[1..] == Digits(n);
  }

  lemma {:induction false} NoLeadingZero(n: nat)
    requires n > 0
    ensures Digits(n)[0] != '0'
  {
    if n >= 10 { NoLeadingZero(n / 10); }
  }

  lemma {:induction false} DigitsOnly(n: nat)
    ensures forall c :: c in Digits(n) ==> '0' <= c <= '9'
  {
    if n >= 10 { DigitsOnly(n / 10); }
  }

  lemma DecimalInjective(i: int, j: int)
    requires Decimal(i) == Decimal(j)
    ensures i == j
  {
    DecimalSign(i);
    DecimalSign(j);
    if i < 0 {
      assert Decimal(i)[1..] == Digits(-i) && Decimal(j)[1..] == Digits(-j);
      DigitsInjective(-i, -j);
    } else {
      DigitsInjective(i, j);
    }
  }

  lemma DecimalSign(i: int)
    ensures |Decimal(i)| > 0 && (i < 0 <==> Decimal(i)[0] == '-')
  {
    if i >= 0 {
      DigitsOnly(i);
      assert Digits(i)[0] in Digits(i);
    }
  }

  lemma DecimalNoColon(i: int)
    ensures ':' !in Decimal(i) && |Decimal(i)| > 0
  {
    DigitsOnly(if i < 0 then -i else i);
  }

  lemma DecimalLastDigit(i: int)
    ensures |Decimal(i)| > 0 && '0' <= Decimal(i)[|Decimal(i)| - 1] <= '9'
  {
  }

  // ---- Separators ---------------------------------------------------------------------------

  /** In name + sep the separator occurs at the end only. */
  ghost predicate Clean(name: string, sep: string) {
    forall i :: 0 <= i < |name| ==> !OccursAt(name + sep, i, sep)
  }

  ghost predicate OccursAt(text: string, i: nat, sep: string) {
    i + |sep| <= |text| && text[i..i + |sep|] == sep
  }

  /**
   A clean name is exactly one that no shorter name can be confused with. For a separator
   of two equal characters this also rules out names that merely end in that character.
   */
  lemma CleanExactly(name: string, sep: string)
    ensures Clean(name, sep) <==>
            forall short: string, rest: string, tail: string :: |short| < |name| ==> short + sep + rest != name + sep + tail
  {
    if Clean(name, sep) {
      forall short: string, rest: string, tail: string | |short| < |name|
        ensures short + sep + rest != name + sep + tail
      {
        var i := |short|;
        assert !OccursAt(name + sep, i, sep);
        assert (name + sep)[i..i + |sep|] == (name + sep + tail)[i..i + |sep|];
        assert (short + sep + rest)[i..i + |sep|] == sep;
      }
    } else {
      var i :| 0 <= i < |name| && OccursAt(name + sep, i, sep);
      var short, rest := name[..i], (name + sep)[i + |sep|..];
      assert short + sep + rest == name + sep + "";
    }
  }

  lemma CleanSplit(a: string, b: string, a': string, b': string, sep: string)
    requires Clean(a, sep) && Clean(a', sep) && a + sep + b == a' + sep + b'
    ensures a == a' && b == b'
  {
    if |a| < |a'| { CleanExactly(a', sep); }
    if |a'| < |a| { CleanExactly(a, sep); }
    assert a == (a + sep + b)[..|a|] && a' == (a' + sep + b')[..|a'|];
    assert b == (a + sep + b)[|a + sep|..] && b' == (a' + sep + b')[|a' + sep|..];
  }

  lemma HostPortInjective(h: string, p: int, h': string, p': int)
    requires h + ":" + Decimal(p) == h' + ":" + Decimal(p')
    ensures h == h' && p == p'
  {
    var d, d' := Decimal(p), Decimal(p');
    var s := h + ":" + d;
    DecimalNoColon(p);
    DecimalNoColon(p');
    assert s[|h|] == ':' && s[|h'|] == ':';
    assert forall i :: |h| < i < |s| ==> s[i] == d[i - |h| - 1];
    assert forall i :: |h'| < i < |s| ==> s[i] == d'[i - |h'| - 1];
    assert h == s[..|h|] && h' == s[..|h'|] && d == s[|h| + 1..] && d' == s[|h'| + 1..];
    DecimalInjective(p, p');
  }

  /**
   The instance key is injective for service, group and cluster names that are clean for the
   separator that follows them; any host will do, and any port up to its int32 conversion.
   */
  lemma InstanceKeyInjective(s: string, g: string, c: string, h: string, p: int,
                             s': string, g': string, c': string, h': string, p': int)
    requires Clean(s, SERVICE_LINK) && Clean(g, CLUSTER_LINK) && Clean(c, INSTANCE_LINK)
    requires Clean(s', SERVICE_LINK) && Clean(g', CLUSTER_LINK) && Clean(c', INSTANCE_LINK)
    ensures ParseInstanceKey(ParseServiceName(s, g), c, h, Int32(p))
            == ParseInstanceKey(ParseServiceName(s', g'), c', h', Int32(p'))
       <==> s == s' && g == g' && c == c' && h == h' && Int32(p) == Int32(p')
  {
    var k := ParseInstanceKey(ParseServiceName(s, g), c, h, Int32(p));
    var k' := ParseInstanceKey(ParseServiceName(s', g'), c', h', Int32(p'));
    if k == k' {
      var e, e' := h + ":" + Decimal(Int32(p)), h' + ":" + Decimal(Int32(p'));
      var t, t' := c + INSTANCE_LINK + e, c' + INSTANCE_LINK + e';
      assert k == s + SERVICE_LINK + (g + CLUSTER_LINK + t);
      assert k' == s' + SERVICE_LINK + (g' + CLUSTER_LINK + t');
      CleanSplit(s, g + CLUSTER_LINK + t, s', g' + CLUSTER_LINK + t', SERVICE_LINK);
      CleanSplit(g, t, g', t', CLUSTER_LINK);
      CleanSplit(c, e, c', e', INSTANCE_LINK);
      HostPortInjective(h, Int32(p), h', Int32(p'));
    }
  }

  /** A clean reading of an instance key. */
  ghost predicate Reading(key: string, s: string, g: string, c: string, h: string, p: int) {
    && Clean(s, SERVICE_LINK) && Clean(g, CLUSTER_LINK) && Clean(c, INSTANCE_LINK) && Int32(p) == p
    && ParseInstanceKey(ParseServiceName(s, g), c, h, p) == key
  }

  // What a name holds beyond its clean part goes over to the text after the separator.
  lemma {:induction false} CleanPart(name: string, sep: string) returns (short: string, rest: string)
    ensures Clean(short, sep) && name + sep == short + sep + rest
    decreases |name|
  {
    if Clean(name, sep) {
      short, rest := name, "";
    } else {
      var i :| 0 <= i < |name| && OccursAt(name + sep, i, sep);
      var over;
      short, over := CleanPart(name[..i], sep);
      rest := over + (name + sep)[i + |sep|..];
      assert name + sep == (name[..i] + sep) + (name + sep)[i + |sep|..];
    }
  }

  /** Every instance key, of any names, has exactly one clean reading. */
  lemma OneReading(s: string, g: string, c: string, h: string, p: int) returns (s': string, g': string, c': string, h': string)
    ensures var key := ParseInstanceKey(ParseServiceName(s, g), c, h, Int32(p));
            && Reading(key, s', g', c', h', Int32(p))
            && forall s2, g2, c2, h2, p2 :: Reading(key, s2, g2, c2, h2, p2) ==>
                 s2 == s' && g2 == g' && c2 == c' && h2 == h' && p2 == Int32(p)
  {
    var key, d := ParseInstanceKey(ParseServiceName(s, g), c, h, Int32(p)), Decimal(Int32(p));
    var r1, r2, r3;
    s', r1 := CleanPart(s, SERVICE_LINK);
    g', r2 := CleanPart(r1 + g, CLUSTER_LINK);
    c', r3 := CleanPart(r2 + c, INSTANCE_LINK);
    h' := r3 + h;
    calc {
      key;
      (s + SERVICE_LINK) + g + CLUSTER_LINK + c + INSTANCE_LINK + (h + ":" + d);
      s' + SERVICE_LINK + ((r1 + g) + CLUSTER_LINK) + c + INSTANCE_LINK + (h + ":" + d);
      s' + SERVICE_LINK + g' + CLUSTER_LINK + ((r2 + c) + INSTANCE_LINK) + (h + ":" + d);
      s' + SERVICE_LINK + g' + CLUSTER_LINK + c' + INSTANCE_LINK + (h' + ":" + d);
    }
    forall s2, g2, c2, h2, p2 | Reading(key, s2, g2, c2, h2, p2)
      ensures s2 == s' && g2 == g' && c2 == c' && h2 == h' && p2 == Int32(p)
    {
      InstanceKeyInjective(s', g', c', h', Int32(p), s2, g2, c2, h2, p2);
    }
  }

  // The texts themselves.
  lemma KeyText()
    ensures ParseInstanceKey(ParseServiceName("s", "g"), "c", "10.0.0.1", 80) == "s@@g$$c=>10.0.0.1:80"
    ensures ParseServiceClusterList(ParseServiceName("s", "g")) == "s@@g_cluster_list"
  {
    assert Digits(8) == "8" && Digits(80) == "80";
  }

  // Names without "@@" in them can still collide, and so can ports 2^32 apart.
  lemma KeysCollide()
    ensures ParseServiceName("a@", "b") == ParseServiceName("a", "@b")
    ensures !Clean("a@", SERVICE_LINK)
    ensures Int32(80) == Int32(80 + 0x1_0000_0000)
  {
    assert OccursAt("a@" + SERVICE_LINK, 1, SERVICE_LINK);
  }

  // ---- Join and strings.Split -----------------------------------------------------------------

  function Join(elems: seq<string>, sep: string): string {
    if elems == [] then ""
    else if |elems| == 1 then elems[0]
    else elems[0] + sep + Join(elems[1..], sep)
  }

  function TotalLength(elems: seq<string>): nat {
    if elems == [] then 0 else |elems[0]| + TotalLength(elems[1..])
  }

  lemma {:induction false} JoinLength(elems: seq<string>, sep: string)
    requires elems != []
    ensures |Join(elems, sep)| == |sep| * (|elems| - 1) + TotalLength(elems)
  {
    if |elems| == 1 {
      assert elems[1..] == [];
    } else {
      JoinLength(elems[1..], sep);
      assert |sep| * (|elems| - 1) == |sep| * (|elems| - 2) + |sep|;
    }
  }

  lemma {:induction false} JoinAppend(elems: seq<string>, e: string, sep: string)
    requires elems != []
    ensures Join(elems + [e], sep) == Join(elems, sep) + sep + e
  {
    assert (elems + [e])[1..] == elems[1..] + [e];
    if |elems| > 1 {
      JoinAppend(elems[1..], e, sep);
    } else {
      assert elems[1..] + [e] == [e];
    }
  }

  lemma {:induction false} TotalLengthAppend(elems: seq<string>, e: string)
    ensures TotalLength(elems + [e]) == TotalLength(elems) + |e|
  {
    if elems == [] {
      assert elems + [e] == [e];
    } else {
      assert (elems + [e])[1..] == elems[1..] + [e];
      TotalLengthAppend(elems[1..], e);
    }
  }

  /** utils.Join; grown is the argument of strings.Builder.Grow. */
  method BuildJoin(elems: seq<string>, sep: string) returns (text: string, grown: nat)
    ensures text == Join(elems, sep)
    ensures |elems| >= 2 ==> grown == |text|
  {
    if |elems| == 0 { return "", 0; }
    if |elems| == 1 { return elems[0], 0; }
    var n := |sep| * (|elems| - 1);
    for i := 0 to |elems|
      invariant n == |sep| * (|elems| - 1) + TotalLength(elems[..i])
    {
      TotalLengthAppend(elems[..i], elems[i]);
      assert elems[..i + 1] == elems[..i] + [elems[i]];
      n := n + |elems[i]|;
    }
    assert elems[..|elems|] == elems;
    JoinLength(elems, sep);
    grown := n;
    text := elems[0];
    for i := 1 to |elems|
      invariant text == Join(elems[..i], sep)
    {
      JoinAppend(elems[..i], elems[i], sep);
      assert elems[..i + 1] == elems[..i] + [elems[i]];
      text := text + sep;
      text := text + elems[i];
    }
  }

  /** strings.Split on a one-character separator. */
  function Split(s: string, c: char): (parts: seq<string>)
    ensures |parts| > 0
  {
    if s == "" then [""]
    else
      var rest := Split(s[1..], c);
      if s[0] == c then [""] + rest else [[s[0]] + rest[0]] + rest[1..]
  }

  lemma {:induction false} SplitParts(s: string, c: char)
    ensures forall i :: 0 <= i < |Split(s, c)| ==> c !in Split(s, c)[i]
  {
    if s != "" { SplitParts(s[1..], c); }
  }

  lemma {:induction false} SplitFirst(x: string, rest: string, c: char)
    requires c !in x
    ensures Split(x + [c] + rest, c) == [x] + Split(rest, c)
  {
    if x == "" {
      assert x + [c] + rest == [c] + rest && ([c] + rest)[1..] == rest;
    } else {
      assert (x + [c] + rest)[1..] == x[1..] + [c] + rest;
      SplitFirst(x[1..], rest, c);
      assert [x[0]] + x[1..] == x;
    }
  }

  lemma {:induction false} SplitWhole(x: string, c: char)
    requires c !in x
    ensures Split(x, c) == [x]
  {
    if x != "" {
      SplitWhole(x[1..], c);
      assert [x[0]] + x[1..] == x;
    }
  }

  lemma {:induction false} SplitJoin(elems: seq<string>, c: char)
    requires elems != [] && forall i :: 0 <= i < |elems| ==> c !in elems[i]
    ensures Split(Join(elems, [c]), c) == elems
  {
    if |elems| == 1 {
      SplitWhole(elems[0], c);
    } else {
      var rest := elems[1..];
      SplitJoin(rest, c);
      SplitFirst(elems[0], Join(rest, [c]), c);
      assert elems == [elems[0]] + rest;
    }
  }

  /** Splitting undoes Join exactly for the non-empty lists of names free of the separator. */
  lemma SplitUndoesJoin(elems: seq<string>, c: char)
    ensures Split(Join(elems, [c]), c) == elems <==> elems != [] && forall i :: 0 <= i < |elems| ==> c !in elems[i]
  {
    SplitParts(Join(elems, [c]), c);
    if elems != [] && forall i :: 0 <= i < |elems| ==> c !in elems[i] {
      SplitJoin(elems, c);
    }
  }

  /** Joining undoes Split for every text. */
  lemma {:induction false} JoinUndoesSplit(s: string, c: char)
    ensures Join(Split(s, c), [c]) == s
  {
    if s != "" {
      var rest := Split(s[1..], c);
      JoinUndoesSplit(s[1..], c);
      if s[0] == c {
        assert ([""] + rest)[1..] == rest;
        assert Join([""] + rest, [c]) == "" + [c] + Join(rest, [c]);
      } else {
        var parts := [[s[0]] + rest[0]] + rest[1..];
        assert parts[1..] == rest[1..];
        assert Join(parts, [c]) == [s[0]] + Join(rest, [c]);
      }
    }
  }
}
