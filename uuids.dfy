/** Employee identifiers ("matricula"): 128-bit UUIDs, written in their canonical
    textual form of 32 hexadecimal digits in groups 8-4-4-4-12. */
module Uuids {
  import opened Common

  type Nibble = n: nat | n < 16

  /** A UUID as its hexadecimal digits, most significant first. */
  datatype Uuid = Uuid(nibbles: seq<Nibble>)

  predicate WellFormed(u: Uuid) {
    |u.nibbles| == 32
  }

  /** Value of a hexadecimal digit, in either case. */
  function HexValue(c: char): (r: Option<Nibble>)
    ensures r.Some? <==> ('0' <= c <= '9' || 'a' <= c <= 'f' || 'A' <= c <= 'F')
  {
    if '0' <= c <= '9' then Some(c as int - '0' as int)
    else if 'a' <= c <= 'f' then Some(c as int - 'a' as int + 10)
    else if 'A' <= c <= 'F' then Some(c as int - 'A' as int + 10)
    else None
  }

  /** Lower-case hexadecimal digit, as UUID.toString writes it. */
  function HexChar(n: Nibble): (c: char)
    ensures HexValue(c) == Some(n)
  {
    if n < 10 then ('0' as int + n) as char else ('a' as int + n - 10) as char
  }

  /** Digits of a string of hexadecimal characters, or None if one is not a digit. */
  function HexDigits(cs: seq<char>): (r: Option<seq<Nibble>>)
    ensures r.Some? ==> |r.value| == |cs|
    ensures r.Some? <==> forall i :: 0 <= i < |cs| ==> HexValue(cs[i]).Some?
    ensures r.Some? ==> forall i :: 0 <= i < |cs| ==> HexValue(cs[i]) == Some(r.value[i])
  {
    if cs == [] then Some([])
    else
      match (HexValue(cs[0]), HexDigits(cs[1..]))
      case (Some(n), Some(ns)) => Some([n] + ns)
      case _ => None
  }

  function HexString(ns: seq<Nibble>): (s: string)
    ensures |s| == |ns|
    ensures forall i :: 0 <= i < |ns| ==> s[i] == HexChar(ns[i])
  {
    if ns == [] then [] else [HexChar(ns[0])] + HexString(ns[1..])
  }

  /** 16 to the power n. */
  function Pow16(n: nat): (p: nat)
    ensures 0 < p
  {
    if n == 0 then 1 else 16 * Pow16(n - 1)
  }

  /** The number a sequence of hexadecimal digits denotes, most significant first. */
  function Value(ds: seq<Nibble>): (v: nat)
    ensures v < Pow16(|ds|)
  {
    if ds == [] then 0 else Value(ds[..|ds| - 1]) * 16 + ds[|ds| - 1]
  }

  /** The w lowest hexadecimal digits of v, most significant first: the digits that
      the mask v & (16^w - 1) keeps. */
  function ToNibbles(v: nat, w: nat): (ns: seq<Nibble>)
    ensures |ns| == w
  {
    if w == 0 then [] else ToNibbles(v / 16, w - 1) + [v % 16]
  }

  /** n zero digits. */
  function Zeros(n: nat): (z: seq<Nibble>)
    ensures |z| == n && forall i :: 0 <= i < n ==> z[i] == 0
  {
    seq(n, _ => 0)
  }

  /** The last w digits of ds, with zeros in front when ds is shorter. */
  function LastDigits(ds: seq<Nibble>, w: nat): (r: seq<Nibble>)
    ensures |r| == w
  {
    if |ds| >= w then ds[|ds| - w..] else Zeros(w - |ds|) + ds
  }

  /** Taking the last w digits peels off the last digit of a non-empty sequence. */
  lemma LastDigitsStep(ds: seq<Nibble>, w: nat)
    requires 0 < w
    ensures ds == [] ==> LastDigits(ds, w) == LastDigits(ds, w - 1) + [0]
    ensures ds != [] ==> LastDigits(ds, w) == LastDigits(ds[..|ds| - 1], w - 1) + [ds[|ds| - 1]]
  {
    if ds == [] {
      assert LastDigits(ds, w) == LastDigits(ds, w - 1) + [0];
    } else if |ds| >= w {
      assert LastDigits(ds, w) == LastDigits(ds[..|ds| - 1], w - 1) + [ds[|ds| - 1]];
    } else {
      var zeros := Zeros(w - |ds|);
      assert LastDigits(ds, w) == zeros + ds;
      assert LastDigits(ds[..|ds| - 1], w - 1) == zeros + ds[..|ds| - 1];
    }
  }

  /** The lowest digit of a * 16 + b is b, and the digits above it are those of a. */
  lemma ToNibblesStep(a: nat, b: Nibble, w: nat)
    requires 0 < w
    ensures ToNibbles(a * 16 + b, w) == ToNibbles(a, w - 1) + [b]
  {
    var v := a * 16 + b;
    assert v / 16 == a && v % 16 == b;
  }

  /** Masking a number to w digits keeps the last w digits it was written with. */
  lemma {:induction false} ToNibblesOfValue(ds: seq<Nibble>, w: nat)
    ensures ToNibbles(Value(ds), w) == LastDigits(ds, w)
    decreases w
  {
    if w == 0 {
      assert LastDigits(ds, w) == [];
    } else {
      LastDigitsStep(ds, w);
      if ds == [] {
        ToNibblesStep(0, 0, w);
        ToNibblesOfValue(ds, w - 1);
        assert ToNibbles(Value(ds), w) == ToNibbles(0, w - 1) + [0];
      } else {
        var init, last := ds[..|ds| - 1], ds[|ds| - 1];
        assert Value(ds) == Value(init) * 16 + last;
        ToNibblesStep(Value(init), last, w);
        ToNibblesOfValue(init, w - 1);
        assert ToNibbles(Value(ds), w) == LastDigits(init, w - 1) + [last];
      }
    }
  }

  /** String.indexOf(c, from): the first position at or after from (a negative from
      counts as 0) that holds c, or -1 when there is none. */
  function IndexOf(s: string, c: char, from: int): (r: int)
    ensures -1 <= r < |s|
    ensures 0 <= r ==> from <= r && s[r] == c
    decreases |s| - from
  {
    if from < 0 then IndexOf(s, c, 0)
    else if from >= |s| then -1
    else if s[from] == c then from
    else IndexOf(s, c, from + 1)
  }

  /** No position between the start of the search and the hit holds c; after a miss, none
      from the start on does. */
  lemma {:induction false} IndexOfIsFirst(s: string, c: char, from: int)
    ensures forall i :: 0 <= i < |s| && from <= i && (IndexOf(s, c, from) < 0 || i < IndexOf(s, c, from)) ==> s[i] != c
    decreases |s| - from
  {
    if from < 0 {
      IndexOfIsFirst(s, c, 0);
    } else if from < |s| && s[from] != c {
      IndexOfIsFirst(s, c, from + 1);
    }
  }

  /** The dash search of the lenient parser: five String.indexOf calls, each starting
      one past the previous hit (a miss, -1, restarts the next search at 0). The text
      has exactly four dashes when the fourth search hits and the fifth misses. */
  function DashSearch(s: string): (d: seq<int>)
    ensures |d| == 5
    ensures d[3] >= 0 && d[4] < 0 ==> Positions(s, d[..4])
  {
    var d1 := IndexOf(s, '-', 0);
    var d2 := IndexOf(s, '-', d1 + 1);
    var d3 := IndexOf(s, '-', d2 + 1);
    var d4 := IndexOf(s, '-', d3 + 1);
    var d5 := IndexOf(s, '-', d4 + 1);
    [d1, d2, d3, d4, d5]
  }

  const LongMax: nat := 0x7fff_ffff_ffff_ffff

  /** The digits of a group, after an optional leading plus sign. */
  function Unsigned(g: string): (body: string)
    ensures |g| > 0 && g[0] == '+' ==> g == "+" + body
    ensures !(|g| > 0 && g[0] == '+') ==> g == body
  {
    if |g| > 0 && g[0] == '+' then g[1..] else g
  }

  /** Long.parseLong(g, 16) on a group of the lenient parser: an optional plus sign, then
      at least one hexadecimal digit, with a value that fits a signed 64-bit long. A
      group holds no dash, so the minus sign parseLong also takes does not arise. */
  function ParseLong(g: string): (r: Option<nat>)
    ensures r.Some? ==> r.value <= LongMax
  {
    var body := Unsigned(g);
    if body == [] then None
    else
      match HexDigits(body)
      case None => None
      case Some(ds) => if Value(ds) <= LongMax then Some(Value(ds)) else None
  }

  /** The five groups of the lenient parser, each parsed as a long and masked to 8, 4, 4,
      4 and 12 digits before the shifts put them in place. */
  function Assemble(gs: seq<string>): (r: Option<Uuid>)
    requires |gs| == 5
    ensures r.Some? ==> WellFormed(r.value)
  {
    var a, b, c, d, e := ParseLong(gs[0]), ParseLong(gs[1]), ParseLong(gs[2]), ParseLong(gs[3]), ParseLong(gs[4]);
    if a.Some? && b.Some? && c.Some? && d.Some? && e.Some? then
      Some(Uuid(ToNibbles(a.value, 8) + ToNibbles(b.value, 4) + ToNibbles(c.value, 4)
                + ToNibbles(d.value, 4) + ToNibbles(e.value, 12)))
    else None
  }

  /** The five groups around the four positions p. */
  function Groups(s: string, p: seq<int>): (gs: seq<string>)
    requires Positions(s, p)
    ensures |gs| == 5
  {
    [s[..p[0]], s[p[0] + 1..p[1]], s[p[1] + 1..p[2]], s[p[2] + 1..p[3]], s[p[3] + 1..]]
  }

  /** The lenient parser UUID.fromString falls back on: at most 36 characters, exactly
      four dashes, and the five groups between them. */
  function FromString1(s: string): (r: Option<Uuid>)
    ensures r.Some? ==> WellFormed(r.value) && |s| <= 36
  {
    if |s| > 36 then None
    else
      var d := DashSearch(s);
      if d[3] < 0 || d[4] >= 0 then None
      else Assemble(Groups(s, d[..4]))
  }

  /** 36 characters with dashes at positions 8, 13, 18 and 23. */
  predicate CanonicalLayout(s: string) {
    |s| == 36 && s[8] == '-' && s[13] == '-' && s[18] == '-' && s[23] == '-'
  }

  /** The 32 digit characters of a 36-character UUID text, dashes removed. */
  function Digits(s: string): (d: seq<char>)
    requires |s| == 36
    ensures |d| == 32
  {
    s[..8] + s[9..13] + s[14..18] + s[19..23] + s[24..]
  }

  /** UUID.fromString: the canonical layout with ASCII hexadecimal digits everywhere else
      is read directly; every other text goes to the lenient parser. */
  function ParseUuid(s: string): (r: Option<Uuid>)
    ensures r.Some? ==> WellFormed(r.value) && |s| <= 36
  {
    if CanonicalLayout(s) then
      match HexDigits(Digits(s))
      case Some(ns) => Some(Uuid(ns))
      case None => FromString1(s)
    else FromString1(s)
  }

  /** A group UUID.fromString takes: an optional plus sign, then one or more hexadecimal
      digits whose value fits a signed 64-bit long. */
  predicate GroupAccepted(g: string) {
    var body := Unsigned(g);
    && body != []
    && (forall i :: 0 <= i < |body| ==> HexValue(body[i]).Some?)
    && Value(HexDigits(body).value) <= LongMax
  }

  function GroupDigits(g: string): seq<Nibble>
    requires GroupAccepted(g)
  {
    HexDigits(Unsigned(g)).value
  }

  /** Four increasing positions inside s. */
  predicate Positions(s: string, p: seq<int>) {
    |p| == 4 && 0 <= p[0] < p[1] < p[2] < p[3] < |s|
  }

  /** The dashes of s are exactly at the four positions p, in increasing order. */
  predicate DashesAt(s: string, p: seq<int>) {
    && Positions(s, p)
    && forall i :: 0 <= i < |s| ==> (s[i] == '-' <==> i == p[0] || i == p[1] || i == p[2] || i == p[3])
  }

  /** A text with its four dashes at p is accepted when it has at most 36 characters and
      every group around the dashes is accepted. */
  predicate AcceptedWith(s: string, p: seq<int>)
    requires DashesAt(s, p)
  {
    var gs := Groups(s, p);
    && |s| <= 36
    && GroupAccepted(gs[0]) && GroupAccepted(gs[1]) && GroupAccepted(gs[2]) && GroupAccepted(gs[3]) && GroupAccepted(gs[4])
  }

  /** The UUID an accepted text stands for: each group keeps its last 8, 4, 4, 4 and 12
      digits, with zeros in front of a shorter group. */
  function DenotedWith(s: string, p: seq<int>): (u: Uuid)
    requires DashesAt(s, p) && AcceptedWith(s, p)
    ensures WellFormed(u)
  {
    var gs := Groups(s, p);
    Uuid(LastDigits(GroupDigits(gs[0]), 8) + LastDigits(GroupDigits(gs[1]), 4) + LastDigits(GroupDigits(gs[2]), 4)
         + LastDigits(GroupDigits(gs[3]), 4) + LastDigits(GroupDigits(gs[4]), 12))
  }

  /** When the fourth search hits and the fifth misses, the four hits are all the dashes. */
  lemma DashSearchFinds(s: string)
    ensures var d := DashSearch(s); d[3] >= 0 && d[4] < 0 ==> DashesAt(s, d[..4])
  {
    var d := DashSearch(s);
    if d[3] >= 0 && d[4] < 0 {
      IndexOfIsFirst(s, '-', 0);
      IndexOfIsFirst(s, '-', d[0] + 1);
      IndexOfIsFirst(s, '-', d[1] + 1);
      IndexOfIsFirst(s, '-', d[2] + 1);
      IndexOfIsFirst(s, '-', d[3] + 1);
    }
  }

  /** The search from `from` stops at q, the first c there (or misses, when q is |s|). */
  lemma {:induction false} IndexOfAt(s: string, c: char, from: nat, q: int)
    requires from <= q <= |s|
    requires q < |s| ==> s[q] == c
    requires forall i :: from <= i < q ==> s[i] != c
    ensures IndexOf(s, c, from) == if q < |s| then q else -1
    decreases q - from
  {
    if from < q {
      IndexOfAt(s, c, from + 1, q);
    }
  }

  /** When the dashes of s are at p, each search from just past a dash stops at the next. */
  lemma DashHits(s: string, p: seq<int>)
    requires DashesAt(s, p)
    ensures IndexOf(s, '-', 0) == p[0] && IndexOf(s, '-', p[0] + 1) == p[1] && IndexOf(s, '-', p[1] + 1) == p[2]
    ensures IndexOf(s, '-', p[2] + 1) == p[3] && IndexOf(s, '-', p[3] + 1) == -1
  {
    assert s[p[0]] == '-' && s[p[1]] == '-' && s[p[2]] == '-' && s[p[3]] == '-';
    IndexOfAt(s, '-', 0, p[0]);
    IndexOfAt(s, '-', p[0] + 1, p[1]);
    IndexOfAt(s, '-', p[1] + 1, p[2]);
    IndexOfAt(s, '-', p[2] + 1, p[3]);
    IndexOfAt(s, '-', p[3] + 1, |s|);
  }

  /** When the dashes of s are at p, the dash search finds them and no fifth. */
  lemma DashSearchOf(s: string, p: seq<int>)
    requires DashesAt(s, p)
    ensures DashSearch(s) == p + [-1]
  {
    DashHits(s, p);
    assert p == [p[0], p[1], p[2], p[3]];
  }

  /** A group parses as a long exactly when it is accepted, and masking the long to w
      digits keeps the last w digits of the group. */
  lemma GroupField(g: string, w: nat)
    ensures ParseLong(g).Some? <==> GroupAccepted(g)
    ensures ParseLong(g).Some? ==> ToNibbles(ParseLong(g).value, w) == LastDigits(GroupDigits(g), w)
  {
    if ParseLong(g).Some? {
      ToNibblesOfValue(GroupDigits(g), w);
    }
  }

  /** The five groups assemble exactly when each is accepted, into the last digits of each. */
  lemma AssembleMatchesReference(gs: seq<string>)
    requires |gs| == 5
    ensures Assemble(gs).Some? <==>
              GroupAccepted(gs[0]) && GroupAccepted(gs[1]) && GroupAccepted(gs[2]) && GroupAccepted(gs[3]) && GroupAccepted(gs[4])
    ensures Assemble(gs).Some? ==>
              Assemble(gs).value.nibbles ==
                LastDigits(GroupDigits(gs[0]), 8) + LastDigits(GroupDigits(gs[1]), 4) + LastDigits(GroupDigits(gs[2]), 4)
                + LastDigits(GroupDigits(gs[3]), 4) + LastDigits(GroupDigits(gs[4]), 12)
  {
    GroupField(gs[0], 8);
    GroupField(gs[1], 4);
    GroupField(gs[2], 4);
    GroupField(gs[3], 4);
    GroupField(gs[4], 12);
  }

  /** The lenient parser refuses every text without exactly four dashes. */
  lemma FromString1NeedsFourDashes(s: string)
    ensures FromString1(s).Some? ==> exists p :: DashesAt(s, p)
  {
    DashSearchFinds(s);
    if FromString1(s).Some? {
      var d := DashSearch(s);
      assert DashesAt(s, d[..4]);
    }
  }

  /** Given the four dashes of a text, the lenient parser accepts it exactly when it is
      accepted and returns the UUID it stands for. */
  lemma FromString1WithDashes(s: string, p: seq<int>)
    requires DashesAt(s, p)
    ensures FromString1(s) == if AcceptedWith(s, p) then Some(DenotedWith(s, p)) else None
  {
    DashSearchOf(s, p);
    var d, gs := DashSearch(s), Groups(s, p);
    assert d[..4] == p && d[3] >= 0 && d[4] < 0;
    AssembleMatchesReference(gs);
    if |s| <= 36 {
      assert FromString1(s) == Assemble(gs);
    }
  }

  /** A canonical group of w hexadecimal digits parses to the number it denotes, and
      masking that number to w digits gives the digits back. */
  lemma CanonicalGroup(g: string, w: nat)
    requires |g| == w && (w == 4 || w == 8 || w == 12) && HexDigits(g).Some?
    ensures ParseLong(g) == Some(Value(HexDigits(g).value))
    ensures ToNibbles(Value(HexDigits(g).value), w) == HexDigits(g).value
  {
    assert Unsigned(g) == g by {
      assert HexValue(g[0]).Some?;
    }
    assert Pow16(w) <= Pow16(12) <= LongMax;
    ToNibblesOfValue(HexDigits(g).value, w);
  }

  /** Digits of a concatenation are the concatenated digits. */
  lemma HexDigitsAppend(a: seq<char>, b: seq<char>)
    requires HexDigits(a).Some? && HexDigits(b).Some?
    ensures HexDigits(a + b) == Some(HexDigits(a).value + HexDigits(b).value)
  {
    var ab := a + b;
    assert forall i :: 0 <= i < |ab| ==> HexValue(ab[i]).Some? by {
      forall i | 0 <= i < |ab| ensures HexValue(ab[i]).Some? {
        if i < |a| { assert ab[i] == a[i]; } else { assert ab[i] == b[i - |a|]; }
      }
    }
    var x, y, z := HexDigits(a).value, HexDigits(b).value, HexDigits(ab).value;
    forall i | 0 <= i < |ab| ensures z[i] == (x + y)[i] {
      if i < |a| {
        assert ab[i] == a[i] && Some(z[i]) == HexValue(a[i]) == Some(x[i]);
      } else {
        assert ab[i] == b[i - |a|] && Some(z[i]) == HexValue(b[i - |a|]) == Some(y[i - |a|]);
      }
    }
    assert z == x + y;
  }

  /** In the canonical layout with digits everywhere else, the dash search finds the four
      dashes where the layout puts them and no fifth. */
  lemma CanonicalDashes(s: string)
    requires CanonicalLayout(s) && HexDigits(Digits(s)).Some?
    ensures DashSearch(s) == [8, 13, 18, 23, -1]
  {
    var h := Digits(s);
    forall i | 0 <= i < |s| && i != 8 && i != 13 && i != 18 && i != 23 ensures s[i] != '-' {
      var k := if i < 8 then i else if i < 13 then i - 1 else if i < 18 then i - 2 else if i < 23 then i - 3 else i - 4;
      assert s[i] == h[k];
      assert HexValue(h[k]).Some?;
    }
    assert DashesAt(s, [8, 13, 18, 23]);
    DashSearchOf(s, [8, 13, 18, 23]);
  }

  /** Five canonical groups assemble into their digits, one after the other. */
  lemma CanonicalAssemble(g1: string, g2: string, g3: string, g4: string, g5: string)
    requires |g1| == 8 && |g2| == 4 && |g3| == 4 && |g4| == 4 && |g5| == 12
    requires HexDigits(g1).Some? && HexDigits(g2).Some? && HexDigits(g3).Some?
    requires HexDigits(g4).Some? && HexDigits(g5).Some?
    ensures Assemble([g1, g2, g3, g4, g5]) ==
              Some(Uuid(HexDigits(g1).value + HexDigits(g2).value + HexDigits(g3).value
                        + HexDigits(g4).value + HexDigits(g5).value))
  {
    CanonicalGroup(g1, 8);
    CanonicalGroup(g2, 4);
    CanonicalGroup(g3, 4);
    CanonicalGroup(g4, 4);
    CanonicalGroup(g5, 12);
  }

  /** The digits of five texts written one after the other. */
  lemma HexDigitsOfFive(g1: string, g2: string, g3: string, g4: string, g5: string)
    requires HexDigits(g1).Some? && HexDigits(g2).Some? && HexDigits(g3).Some?
    requires HexDigits(g4).Some? && HexDigits(g5).Some?
    ensures HexDigits(g1 + g2 + g3 + g4 + g5) ==
              Some(HexDigits(g1).value + HexDigits(g2).value + HexDigits(g3).value
                   + HexDigits(g4).value + HexDigits(g5).value)
  {
    HexDigitsAppend(g1, g2);
    HexDigitsAppend(g1 + g2, g3);
    HexDigitsAppend(g1 + g2 + g3, g4);
    HexDigitsAppend(g1 + g2 + g3 + g4, g5);
  }

  /** The direct reading of the canonical layout is a shortcut: UUID.fromString returns
      what the lenient parser alone would return, for every text. */
  lemma ShortcutAgrees(s: string)
    ensures ParseUuid(s) == FromString1(s)
  {
    if CanonicalLayout(s) && HexDigits(Digits(s)).Some? {
      var h := Digits(s);
      var g1, g2, g3, g4, g5 := s[..8], s[9..13], s[14..18], s[19..23], s[24..];
      assert h == g1 + g2 + g3 + g4 + g5;
      assert HexDigits(g1).Some? && HexDigits(g2).Some? && HexDigits(g3).Some? by {
        assert forall i :: 0 <= i < 8 ==> g1[i] == h[i];
        assert forall i :: 0 <= i < 4 ==> g2[i] == h[i + 8] && g3[i] == h[i + 12];
      }
      assert HexDigits(g4).Some? && HexDigits(g5).Some? by {
        assert forall i :: 0 <= i < 4 ==> g4[i] == h[i + 16];
        assert forall i :: 0 <= i < 12 ==> g5[i] == h[i + 20];
      }
      CanonicalDashes(s);
      CanonicalAssemble(g1, g2, g3, g4, g5);
      HexDigitsOfFive(g1, g2, g3, g4, g5);
    }
  }

  /** Every text in the canonical layout with an ASCII hexadecimal digit at each of the
      other 32 positions parses, to those digits in order. */
  lemma CanonicalParses(s: string)
    requires CanonicalLayout(s)
    requires forall i :: 0 <= i < |s| && i != 8 && i != 13 && i != 18 && i != 23 ==> HexValue(s[i]).Some?
    ensures ParseUuid(s) == Some(Uuid(HexDigits(Digits(s)).value))
  {
    var h := Digits(s);
    forall k | 0 <= k < 32 ensures HexValue(h[k]).Some? {
      var i := if k < 8 then k else if k < 12 then k + 1 else if k < 16 then k + 2 else if k < 20 then k + 3 else k + 4;
      assert h[k] == s[i];
    }
  }

  /** UUID.fromString refuses every text without exactly four dashes. */
  lemma ParseUuidNeedsFourDashes(s: string)
    ensures ParseUuid(s).Some? ==> exists p :: DashesAt(s, p)
  {
    ShortcutAgrees(s);
    FromString1NeedsFourDashes(s);
  }

  /** Given the four dashes of a text, UUID.fromString accepts it exactly when it has at
      most 36 characters and accepted groups, and returns the UUID they stand for. */
  lemma ParseUuidWithDashes(s: string, p: seq<int>)
    requires DashesAt(s, p)
    ensures ParseUuid(s) == if AcceptedWith(s, p) then Some(DenotedWith(s, p)) else None
  {
    ShortcutAgrees(s);
    FromString1WithDashes(s, p);
  }

  /** The fallback accepts texts far from the canonical layout: five single decimal
      digits between four dashes, such as "1-2-3-4-5", make a UUID. */
  lemma ShortFormAccepted(s: string)
    requires |s| == 9 && s[1] == '-' && s[3] == '-' && s[5] == '-' && s[7] == '-'
    requires '0' <= s[0] <= '9' && '0' <= s[2] <= '9' && '0' <= s[4] <= '9' && '0' <= s[6] <= '9' && '0' <= s[8] <= '9'
    ensures ParseUuid(s).Some?
  {
    var p := [1, 3, 5, 7];
    assert DashesAt(s, p);
    var gs := Groups(s, p);
    assert gs[0][0] == s[0] && gs[1][0] == s[2] && gs[2][0] == s[4] && gs[3][0] == s[6] && gs[4][0] == s[8];
    OneDigitGroup(gs[0], 8);
    OneDigitGroup(gs[1], 4);
    OneDigitGroup(gs[2], 4);
    OneDigitGroup(gs[3], 4);
    OneDigitGroup(gs[4], 12);
    ParseUuidWithDashes(s, p);
  }

  /** A group of one decimal digit is accepted, and its field is that digit after zeros. */
  lemma OneDigitGroup(g: string, w: nat)
    requires |g| == 1 && '0' <= g[0] <= '9' && 0 < w
    ensures GroupAccepted(g)
    ensures LastDigits(GroupDigits(g), w) == Zeros(w - 1) + [g[0] as int - '0' as int]
  {
    var c := g[0];
    var v: Nibble := c as int - '0' as int;
    assert g == [c];
    assert HexDigits([c]) == Some([v]) by {
      assert [c][1..] == [] && HexDigits([]) == Some([]);
      assert [v] + [] == [v];
    }
    assert Unsigned([c]) == [c];
    assert Value([v]) == v by {
      assert [v][..0] == [];
    }
    if w == 1 {
      assert Zeros(w - 1) + [v] == [v];
    }
  }

  /** UUID.toString: lower-case digits in groups 8-4-4-4-12. */
  function FormatUuid(u: Uuid): (s: string)
    requires WellFormed(u)
    ensures |s| == 36 && s[8] == s[13] == s[18] == s[23] == '-'
  {
    var h := HexString(u.nibbles);
    h[..8] + "-" + h[8..12] + "-" + h[12..16] + "-" + h[16..20] + "-" + h[20..]
  }

  lemma {:induction false} HexDigitsOfHexString(ns: seq<Nibble>)
    ensures HexDigits(HexString(ns)) == Some(ns)
  {
    if ns != [] {
      var s := HexString(ns);
      assert s[1..] == HexString(ns[1..]);
      HexDigitsOfHexString(ns[1..]);
      assert [ns[0]] + ns[1..] == ns;
    }
  }

  /** Printing a UUID and parsing the text back gives the same UUID. */
  lemma ParseFormatRoundTrip(u: Uuid)
    requires WellFormed(u)
    ensures ParseUuid(FormatUuid(u)) == Some(u)
  {
    var h := HexString(u.nibbles);
    var s := FormatUuid(u);
    assert s[..8] == h[..8];
    assert s[9..13] == h[8..12];
    assert s[14..18] == h[12..16];
    assert s[19..23] == h[16..20];
    assert s[24..] == h[20..];
    assert h == h[..8] + h[8..12] + h[12..16] + h[16..20] + h[20..];
    HexDigitsOfHexString(u.nibbles);
  }
}
