/** Room labels: the key normalisation applied to every room column
    (`_norm_room`) and the natural order of room labels
    (`sort_rooms_natural`), in which "C2" comes before "C10". */
module Rooms {
  import opened Collections
  import opened Ordering

  // ---------------------------------------------------------------------
  // Key normalisation
  // ---------------------------------------------------------------------

  /** Python's `str.isspace`, which is also what `str.strip()` strips and
      what the pattern `\s` matches. */
  predicate IsSpace(c: char)
  {
    var n := c as int;
    (9 <= n <= 13) || (28 <= n <= 32) || n == 0x85 || n == 0xA0 || n == 0x1680
    || (0x2000 <= n <= 0x200A) || n == 0x2028 || n == 0x2029 || n == 0x202F
    || n == 0x205F || n == 0x3000
  }

  /** The lower-case letters of the room labels' alphabet: ASCII and the
      Croatian letters č, ć, đ, š, ž. */
  predicate IsLower(c: char)
  {
    ('a' <= c <= 'z') || c == '\U{010D}' || c == '\U{0107}' || c == '\U{0111}' || c == '\U{0161}' || c == '\U{017E}'
  }

  /** `str.upper` on one character of that alphabet; every other character is kept. */
  function UpperChar(c: char): (u: char)
    ensures !IsLower(u)
    ensures IsSpace(u) <==> IsSpace(c)
    ensures !IsLower(c) ==> u == c
  {
    if 'a' <= c <= 'z' then (c as int - 32) as char
    else if IsLower(c) then (c as int - 1) as char
    else c
  }

  function Upper(s: string): (r: string)
    ensures |r| == |s|
  {
    seq(|s|, i requires 0 <= i < |s| => UpperChar(s[i]))
  }

  function TrimStart(s: string): string
  {
    if s != [] && IsSpace(s[0]) then TrimStart(s[1..]) else s
  }

  function TrimEnd(s: string): string
  {
    if s != [] && IsSpace(s[|s| - 1]) then TrimEnd(s[..|s| - 1]) else s
  }

  /** `str.strip()`: neither end of the result is whitespace. */
  function Strip(s: string): (r: string)
    ensures r == [] || (!IsSpace(r[0]) && !IsSpace(r[|r| - 1]))
  {
    var m := TrimStart(s);
    TrimStartNoLead(s);
    TrimEndPrefix(m);
    TrimEnd(m)
  }

  lemma {:induction false} TrimStartNoLead(s: string)
    ensures TrimStart(s) == [] || !IsSpace(TrimStart(s)[0])
  {
    if s != [] && IsSpace(s[0]) {
      TrimStartNoLead(s[1..]);
    }
  }

  lemma {:induction false} TrimEndPrefix(s: string)
    ensures |TrimEnd(s)| <= |s| && TrimEnd(s) == s[..|TrimEnd(s)|]
    ensures TrimEnd(s) == [] || !IsSpace(TrimEnd(s)[|TrimEnd(s)| - 1])
    decreases |s|
  {
    if s != [] && IsSpace(s[|s| - 1]) {
      TrimEndPrefix(s[..|s| - 1]);
    }
  }

  predicate NotSpace(c: char)
  {
    !IsSpace(c)
  }

  /** `str.replace(r"\s+", "", regex=True)`: every whitespace run removed. */
  function RemoveSpaces(s: string): string
  {
    Filter(NotSpace, s)
  }

  /** `_norm_room`: strip, upper-case, delete all whitespace. The key holds
      no whitespace and no lower-case letter. */
  function NormRoom(s: string): (r: string)
    ensures forall i :: 0 <= i < |r| ==> !IsSpace(r[i]) && !IsLower(r[i])
  {
    var u := Upper(Strip(s));
    var r := RemoveSpaces(u);
    FilterSpec(NotSpace, u);
    assert forall i :: 0 <= i < |r| ==> r[i] in u;
    r
  }

  lemma {:induction false} RemoveSpacesOfUpper(s: string)
    ensures RemoveSpaces(Upper(s)) == Upper(RemoveSpaces(s))
  {
    if s != [] {
      var u := Upper(s);
      var head := if NotSpace(s[0]) then [s[0]] else [];
      assert u[0] == UpperChar(s[0]) && u[1..] == Upper(s[1..]);
      assert Upper(head) == if NotSpace(UpperChar(s[0])) then [UpperChar(s[0])] else [];
      calc {
        RemoveSpaces(u);
        (if NotSpace(u[0]) then [u[0]] else []) + RemoveSpaces(u[1..]);
        { RemoveSpacesOfUpper(s[1..]); }
        Upper(head) + Upper(RemoveSpaces(s[1..]));
        { UpperAppend(head, RemoveSpaces(s[1..])); }
        Upper(head + RemoveSpaces(s[1..]));
        Upper(RemoveSpaces(s));
      }
    }
  }

  lemma {:induction false} RemoveSpacesOfSpaces(s: string)
    requires forall i :: 0 <= i < |s| ==> IsSpace(s[i])
    ensures RemoveSpaces(s) == []
  {
    if s != [] {
      RemoveSpacesOfSpaces(s[1..]);
    }
  }

  /** `Strip` only cuts whitespace off both ends. */
  lemma {:induction false} StripSplits(s: string)
    ensures exists a, b ::
      && s == a + Strip(s) + b
      && (forall i :: 0 <= i < |a| ==> IsSpace(a[i]))
      && (forall i :: 0 <= i < |b| ==> IsSpace(b[i]))
  {
    var a, m := TrimStartSplits(s);
    var b := TrimEndSplits(m);
    assert s == a + Strip(s) + b;
  }

  lemma {:induction false} TrimStartSplits(s: string) returns (a: string, m: string)
    ensures m == TrimStart(s) && s == a + m && forall i :: 0 <= i < |a| ==> IsSpace(a[i])
  {
    if s != [] && IsSpace(s[0]) {
      var a', m' := TrimStartSplits(s[1..]);
      a, m := [s[0]] + a', m';
      assert s == [s[0]] + s[1..];
    } else {
      a, m := [], s;
    }
  }

  lemma {:induction false} TrimEndSplits(s: string) returns (b: string)
    ensures s == TrimEnd(s) + b && forall i :: 0 <= i < |b| ==> IsSpace(b[i])
    decreases |s|
  {
    if s != [] && IsSpace(s[|s| - 1]) {
      var b' := TrimEndSplits(s[..|s| - 1]);
      b := b' + [s[|s| - 1]];
      assert s == s[..|s| - 1] + [s[|s| - 1]];
    } else {
      b := [];
    }
  }

  lemma UpperAppend(a: string, b: string)
    ensures Upper(a + b) == Upper(a) + Upper(b)
  {
  }

  /** Two labels get the same key exactly when they agree after dropping
      all whitespace and upper-casing: the strip step changes nothing that
      the whitespace removal would not remove anyway. */
  lemma NormRoomIgnoresCaseAndSpaces(s: string)
    ensures NormRoom(s) == Upper(RemoveSpaces(s))
  {
    StripSplits(s);
    var a, b :| s == a + Strip(s) + b
      && (forall i :: 0 <= i < |a| ==> IsSpace(a[i]))
      && (forall i :: 0 <= i < |b| ==> IsSpace(b[i]));
    var m := Strip(s);
    RemoveSpacesOfSpaces(a);
    RemoveSpacesOfSpaces(b);
    FilterAppend(NotSpace, a + m, b);
    FilterAppend(NotSpace, a, m);
    assert RemoveSpaces(s) == RemoveSpaces(m);
    RemoveSpacesOfUpper(m);
  }

  lemma {:induction false} CleanIsFixed(t: string)
    requires forall i :: 0 <= i < |t| ==> !IsSpace(t[i]) && !IsLower(t[i])
    ensures Upper(t) == t && RemoveSpaces(t) == t
  {
    if t != [] {
      CleanIsFixed(t[1..]);
      assert Upper(t)[1..] == Upper(t[1..]);
      assert t == [t[0]] + t[1..];
    }
  }

  /** Normalising a key again changes nothing. */
  lemma NormRoomIdempotent(s: string)
    ensures NormRoom(NormRoom(s)) == NormRoom(s)
  {
    var t := NormRoom(s);
    NormRoomIgnoresCaseAndSpaces(t);
    CleanIsFixed(t);
  }

  // ---------------------------------------------------------------------
  // Natural order of room labels
  // ---------------------------------------------------------------------

  /** The class `[A-Za-zČĆŽŠĐ]` of the leading-prefix pattern. */
  predicate IsPrefixLetter(c: char)
  {
    ('A' <= c <= 'Z') || ('a' <= c <= 'z')
    || c == '\U{010C}' || c == '\U{0106}' || c == '\U{017D}' || c == '\U{0160}' || c == '\U{0110}'
  }

  predicate IsDigit(c: char)
  {
    '0' <= c <= '9'
  }

  /** `^([A-Za-zČĆŽŠĐ]+)` with a missing match read as "": the longest
      leading run of prefix letters. */
  function Prefix(s: string): (p: string)
    ensures |p| <= |s| && p == s[..|p|]
    ensures forall i :: 0 <= i < |p| ==> IsPrefixLetter(p[i])
    ensures |p| == |s| || !IsPrefixLetter(s[|p|])
  {
    if s != [] && IsPrefixLetter(s[0]) then [s[0]] + Prefix(s[1..]) else []
  }

  /** The longest leading run of digits. */
  function LeadingDigits(s: string): (d: string)
    ensures |d| <= |s| && d == s[..|d|]
    ensures forall i :: 0 <= i < |d| ==> IsDigit(d[i])
    ensures |d| == |s| || !IsDigit(s[|d|])
  {
    if s != [] && IsDigit(s[0]) then [s[0]] + LeadingDigits(s[1..]) else []
  }

  /** The integer a string of decimal digits denotes. */
  function DecimalValue(d: string): (n: nat)
    requires forall i :: 0 <= i < |d| ==> IsDigit(d[i])
  {
    if d == [] then 0
    else
      assert IsDigit(d[|d| - 1]);
      DecimalValue(d[..|d| - 1]) * 10 + (d[|d| - 1] as int - '0' as int)
  }

  /** `(\d+)` converted to an integer, 0 when the label holds no digit. */
  function FirstNumber(s: string): nat
  {
    if s == [] then 0
    else if IsDigit(s[0]) then DecimalValue(LeadingDigits(s))
    else FirstNumber(s[1..])
  }

  /** `FirstNumber` is 0 for a label without digits, and otherwise the value
      of the maximal digit run that starts at the label's first digit. */
  lemma {:induction false} FirstNumberSpec(s: string)
    ensures (forall i :: 0 <= i < |s| ==> !IsDigit(s[i])) ==> FirstNumber(s) == 0
    ensures forall i :: 0 <= i < |s| && IsDigit(s[i]) && (forall j :: 0 <= j < i ==> !IsDigit(s[j]))
              ==> FirstNumber(s) == DecimalValue(LeadingDigits(s[i..]))
  {
    if s != [] && !IsDigit(s[0]) {
      FirstNumberSpec(s[1..]);
      assert forall i :: 1 <= i <= |s| ==> s[i..] == s[1..][i - 1..];
      assert forall j :: 1 <= j < |s| ==> s[j] == s[1..][j - 1];
    }
  }

  /** The sort columns of `sort_rooms_natural`: prefix, number, the extra
      columns, then the name itself. */
  function NaturalKey(name: string, extra: seq<Value>): seq<Value>
  {
    [Text(Prefix(name)), Num(FirstNumber(name))] + (extra + [Text(name)])
  }

  function NaturalOrder<T>(name: T -> string, extra: T -> seq<Value>): T -> seq<Value>
  {
    x => NaturalKey(name(x), extra(x))
  }

  /** How two natural keys compare: by prefix in string order, then by
      number, then by the extra columns and the name. */
  lemma NaturalKeyLe(a: string, ea: seq<Value>, b: string, eb: seq<Value>)
    ensures KeyLe(NaturalKey(a, ea), NaturalKey(b, eb)) <==>
      StrLt(Prefix(a), Prefix(b))
      || (Prefix(a) == Prefix(b) && FirstNumber(a) < FirstNumber(b))
      || (Prefix(a) == Prefix(b) && FirstNumber(a) == FirstNumber(b)
          && KeyLe(ea + [Text(a)], eb + [Text(b)]))
  {
    ColumnsLe(Prefix(a), FirstNumber(a), ea + [Text(a)], Prefix(b), FirstNumber(b), eb + [Text(b)]);
  }

  lemma ColumnsLe(p: string, n: int, e: seq<Value>, q: string, m: int, f: seq<Value>)
    ensures KeyLe([Text(p), Num(n)] + e, [Text(q), Num(m)] + f) <==>
      StrLt(p, q) || (p == q && n < m) || (p == q && n == m && KeyLe(e, f))
  {
    assert [Text(p), Num(n)] + e == [Text(p)] + ([Num(n)] + e);
    assert [Text(q), Num(m)] + f == [Text(q)] + ([Num(m)] + f);
    KeyLeCons(Text(p), [Num(n)] + e, Text(q), [Num(m)] + f);
    KeyLeCons(Num(n), e, Num(m), f);
  }

  /** `sort_rooms_natural`: a permutation of the rows in ascending natural
      order of their labels; empty input is returned as it is. */
  function SortRoomsNatural<T>(rows: seq<T>, name: T -> string, extra: T -> seq<Value>): (r: seq<T>)
    ensures multiset(r) == multiset(rows) && |r| == |rows|
    ensures SortedByKey(NaturalOrder(name, extra), r)
    ensures rows == [] ==> r == rows
  {
    if rows == [] then rows else SortByKey(NaturalOrder(name, extra), rows)
  }

  /** "C2" sorts before "C10", although "C10" < "C2" as plain strings. */
  lemma C2BeforeC10()
    ensures KeyLt(NaturalKey("C2", []), NaturalKey("C10", []))
    ensures StrLt("C10", "C2")
  {
    assert Prefix("C2") == "C" by {
      assert "C2"[1..] == "2";
    }
    assert Prefix("C10") == "C" by {
      assert "C10"[1..] == "10";
    }
    assert FirstNumber("C2") == 2 by {
      assert "C2"[1..] == "2";
      assert LeadingDigits("2") == "2" by { assert "2"[1..] == ""; }
      assert DecimalValue("2") == 2 by { assert "2"[..0] == ""; }
    }
    assert FirstNumber("C10") == 10 by {
      assert "C10"[1..] == "10";
      assert LeadingDigits("10") == "10" by { assert "10"[1..] == "0"; assert "0"[1..] == ""; }
      assert DecimalValue("10") == 10 by { assert "10"[..1] == "1"; assert "1"[..0] == ""; }
    }
    var k2, k10 := NaturalKey("C2", []), NaturalKey("C10", []);
    assert k2 == [Text("C"), Num(2), Text("C2")];
    assert k10 == [Text("C"), Num(10), Text("C10")];
    assert k2[1..] == [Num(2), Text("C2")] && k10[1..] == [Num(10), Text("C10")];
    StrLtIrreflexive("C");
    assert "C10"[1..] == "10" && "C2"[1..] == "2";
  }

  /** Sorting the labels "C10" and "C2" naturally puts "C2" first. */
  lemma SortC10C2()
    ensures SortRoomsNatural(["C10", "C2"], Id, NoColumns) == ["C2", "C10"]
  {
    var r := SortRoomsNatural(["C10", "C2"], Id, NoColumns);
    C2BeforeC10();
    assert NaturalOrder(Id, NoColumns)("C2") == NaturalKey("C2", []);
    assert NaturalOrder(Id, NoColumns)("C10") == NaturalKey(Id("C10"), NoColumns("C10"));
    assert multiset(r) == multiset{"C10", "C2"};
    assert r[0] in multiset(r) && r[1] in multiset(r);
    assert r[0] != r[1];
    if r[0] == "C10" {
      assert KeyLe(NaturalKey("C10", []), NaturalKey("C2", []));
      KeyLtIrreflexive(NaturalKey("C2", []));
      KeyLtTransitive(NaturalKey("C2", []), NaturalKey("C10", []), NaturalKey("C2", []));
    }
  }

  /** The label " d10 " gets the key "D10". */
  lemma NormRoomExample()
    ensures NormRoom(" d10 ") == "D10"
  {
    NormRoomIgnoresCaseAndSpaces(" d10 ");
    assert RemoveSpaces(" d10 ") == "d10" by {
      assert " d10 "[1..] == "d10 " && "d10 "[1..] == "10 " && "10 "[1..] == "0 " && "0 "[1..] == " " && " "[1..] == "";
    }
  }
}
