/**
  Choosing targets: how rurun.py numbers and replicates them, and how the
  russpnet server reads an index from a path (russpnet_server.c).
 */
module Targets {
  import opened Bytes
  import opened Str

  // ----- C arithmetic and sscanf -----

  // The remainder of C, with the sign of the dividend.
  function CRem(a: int, n: int): int
    requires n > 0
  {
    if a >= 0 then a % n else -((-a) % n)
  }

  predicate IsDigit(c: char) { '0' <= c <= '9' }

  function DigitValue(c: char): nat
    requires IsDigit(c)
  {
    c as int - '0' as int
  }

  // The digits at the start of s, after the value `acc`.
  function ScanDigits(s: string, acc: nat): nat {
    if s == "" || !IsDigit(s[0]) then acc else ScanDigits(s[1..], 10 * acc + DigitValue(s[0]))
  }

  // %d: white space, a sign and at least one digit.
  function ScanInt(s: string): Option<int> {
    if s == "" then None
    else if IsSpace(s[0]) then ScanInt(s[1..])
    else
      var t := if s[0] in ['+', '-'] then s[1..] else s;
      if t == "" || !IsDigit(t[0]) then None
      else Some(if s[0] == '-' then -(ScanDigits(t, 0) as int) else ScanDigits(t, 0))
  }

  // The index in a path component: whether it wraps, and its value.
  function ScanIndex(comp: string): Option<(bool, int)> {
    if comp != "" && comp[0] == ':' && ScanInt(comp[1..]).Some? then Some((true, ScanInt(comp[1..]).value))
    else if ScanInt(comp).Some? then Some((false, ScanInt(comp).value))
    else None
  }

  // ----- get_valid_id_index -----

  // The index of a target, or None.
  function IndexFor(wrap: bool, o: int, n: int): Option<int>
    requires n > 0
  {
    var shifted := if o < 0 then o + n else o;
    var idx := if wrap then CRem(shifted, n) else shifted;
    if idx < 0 || idx >= n then None else Some(idx)
  }

  lemma MultipleIsLarge(d: int, n: int)
    requires d > 0 && n > 0
    ensures d * n >= n && (-d) * n <= -n
  {
    MulSign(d - 1, n);
    assert (d - 1) * n == d * n - n && (-d) * n == -(d * n);
  }

  lemma MulSign(a: int, b: int)
    requires a >= 0 && b >= 0
    ensures a * b >= 0
  {
  }

  lemma SmallMultiple(d: int, n: int)
    requires n > 0 && -n < d * n < n
    ensures d == 0
  {
    if d > 0 {
      MultipleIsLarge(d, n);
    } else if d < 0 {
      MultipleIsLarge(-d, n);
    }
  }

  lemma ModUnique(a: int, n: int, q: int, r: int)
    requires n > 0 && a == q * n + r && 0 <= r < n
    ensures a % n == r
  {
    var q2, r2 := a / n, a % n;
    assert a == q2 * n + r2 && 0 <= r2 < n;
    assert (q - q2) * n == q * n - q2 * n;
    SmallMultiple(q - q2, n);
  }

  lemma RemOfMultiple(a: int, n: int)
    requires n > 0
    ensures (-a) % n == 0 <==> a % n == 0
  {
    var q, r := a / n, a % n;
    assert a == q * n + r;
    assert (-q) * n == -(q * n) && (-q - 1) * n == -(q * n) - n;
    ModUnique(-a, n, if r == 0 then -q else -q - 1, if r == 0 then 0 else n - r);
  }

  lemma ModShift(a: int, n: int)
    requires n > 0
    ensures (a + n) % n == a % n
  {
    var q := a / n;
    assert a == q * n + a % n;
    assert (q + 1) * n == q * n + n;
    ModUnique(a + n, n, a / n + 1, a % n);
  }

  /**
    Exactly which indices are accepted, and that an accepted one is the target
    id modulo the number of targets, rounding down, as rurun reports it.
   */
  lemma AcceptedIndex(wrap: bool, o: int, n: int)
    requires n > 0
    ensures IndexFor(wrap, o, n).Some? ==> IndexFor(wrap, o, n).value == o % n
    ensures IndexFor(wrap, o, n).Some? <==> if wrap then o >= -n || o % n == 0 else -n <= o < n
  {
    ModShift(o, n);
    var shifted := if o < 0 then o + n else o;
    if 0 <= shifted < n {
      ModUnique(shifted, n, 0, shifted);
    }
    if shifted < 0 {
      RemOfMultiple(-shifted, n);
    }
  }

  // Among two targets a wrapping -3 does not loop around, and a wrapping -4 does.
  lemma WrappingStops()
    ensures IndexFor(true, -3, 2) == None && IndexFor(true, -4, 2) == Some(0)
  {
    assert CRem(-1, 2) == -1 && CRem(-2, 2) == 0;
  }

  // The string before the NUL.
  function CText(b: seq<char>): string {
    if b == [] || b[0] == '\0' then "" else [b[0]] + CText(b[1..])
  }

  lemma {:induction false} TextBeforeNul(s: string, rest: seq<char>)
    requires '\0' !in s
    ensures CText(s + ['\0'] + rest) == s
  {
    var b := s + ['\0'] + rest;
    if s != "" {
      assert b[1..] == s[1..] + ['\0'] + rest;
      TextBeforeNul(s[1..], rest);
      assert s == [s[0]] + s[1..];
    }
  }

  const BUF_SIZE := 64

  // What the third component of the path says, if it fits in the buffer.
  function Indexed(spath: string): Option<(bool, int)> {
    var c := Component(spath, '/', 2);
    if c.Some? && |c.value| < BUF_SIZE then ScanIndex(c.value) else None
  }

  // The index that the path selects among the targets.
  function Resolved(spath: string, ntargets: int): Option<int> {
    if ntargets < 1 || Indexed(spath).None? then None
    else IndexFor(Indexed(spath).value.0, Indexed(spath).value.1, ntargets)
  }

  method GetValidIdIndex(spath: string, ntargets: int) returns (rv: int, idx: int, oidx: int, wrap: int)
    requires '\0' !in spath
    ensures rv == 0 || rv == -1
    ensures rv == 0 <==> Resolved(spath, ntargets).Some?
    ensures rv == 0 ==> Indexed(spath) == Some((wrap == 1, oidx)) && Resolved(spath, ntargets) == Some(idx)
  {
    idx, oidx, wrap := -1, -1, -1;
    if ntargets < 1 {
      return -1, idx, oidx, wrap;
    }
    var buf := new char[BUF_SIZE];
    rv := GetComp(spath, '/', 2, buf);
    if rv < 0 {
      return;
    }
    var comp := CText(buf[..]);
    assert comp == Component(spath, '/', 2).value by {
      var c := Component(spath, '/', 2).value;
      ComponentWithin(spath, '/', 2);
      var rest := buf[..][|c| + 1..];
      assert buf[..] == c + ['\0'] + rest;
      TextBeforeNul(c, rest);
    }
    if comp != "" && comp[0] == ':' && ScanInt(comp[1..]).Some? {
      oidx, wrap := ScanInt(comp[1..]).value, 1;
    } else if ScanInt(comp).Some? {
      oidx, wrap := ScanInt(comp).value, 0;
    } else {
      return -1, idx, oidx, wrap;
    }
    idx := oidx;
    if idx < 0 {
      idx := idx + ntargets;
    }
    if wrap != 0 {
      idx := CRem(idx, ntargets);
    }
    if idx < 0 || idx >= ntargets {
      return -1, idx, oidx, wrap;
    }
    rv := 0;
  }

  lemma {:induction false} PartsWithin(s: string, ss: string, p: nat)
    requires ss != "" && p <= |s|
    ensures forall i, c :: 0 <= i < |SplitFrom(s, ss, p)| && c in SplitFrom(s, ss, p)[i] ==> c in s
    decreases |s| - p
  {
    var r := Find(s, ss, p);
    if r.Some? {
      PartsWithin(s, ss, r.value + |ss|);
    }
  }

  lemma ComponentWithin(s: string, sep: char, idx: int)
    requires Component(s, sep, idx).Some?
    ensures forall c :: c in Component(s, sep, idx).value ==> c in s
  {
    PartsWithin(s, [sep], 0);
  }

  // ----- the path that rurun builds -----

  function Digits(n: nat): string {
    (if n < 10 then "" else Digits(n / 10)) + [(n % 10 + '0' as int) as char]
  }

  // str() of an integer
  function Decimal(i: int): string {
    if i < 0 then "-" + Digits(-i) else Digits(i)
  }

  predicate AllDigits(s: string) {
    forall i :: 0 <= i < |s| ==> IsDigit(s[i])
  }

  lemma {:induction false} DigitsAreDigits(n: nat)
    ensures Digits(n) != "" && AllDigits(Digits(n))
  {
    if n >= 10 {
      DigitsAreDigits(n / 10);
    }
  }

  lemma {:induction false} ScanJoins(a: string, b: string, acc: nat)
    requires AllDigits(a)
    ensures ScanDigits(a + b, acc) == ScanDigits(b, ScanDigits(a, acc))
  {
    if a == "" {
      assert a + b == b;
    } else {
      assert (a + b)[1..] == a[1..] + b;
      ScanJoins(a[1..], b, 10 * acc + DigitValue(a[0]));
    }
  }

  lemma {:induction false} DigitsScanned(n: nat)
    ensures ScanDigits(Digits(n), 0) == n
  {
    var last := [(n % 10 + '0' as int) as char];
    assert last[1..] == "";
    if n < 10 {
      assert Digits(n) == last;
    } else {
      DigitsScanned(n / 10);
      DigitsAreDigits(n / 10);
      ScanJoins(Digits(n / 10), last, 0);
      assert ScanDigits(last, n / 10) == 10 * (n / 10) + n % 10;
    }
  }

  lemma DecimalScanned(i: int)
    ensures ScanInt(Decimal(i)) == Some(i) && Decimal(i)[0] != ':'
  {
    var n := if i < 0 then -i else i;
    DigitsAreDigits(n);
    DigitsScanned(n);
    if i < 0 { assert Decimal(i)[1..] == Digits(n); }
  }

  // ----- which texts are numbers -----

  predicate IsSign(sign: string) { sign in ["", "+", "-"] }

  function Signed(sign: string, digits: string): int {
    if sign == "-" then -(ScanDigits(digits, 0) as int) else ScanDigits(digits, 0)
  }

  lemma {:induction false} SpaceScanned(w: string, s: string)
    requires AllSpace(w)
    ensures ScanInt(w + s) == ScanInt(s)
  {
    if w == "" {
      assert w + s == s;
    } else {
      assert (w + s)[1..] == w[1..] + s;
      SpaceScanned(w[1..], s);
    }
  }

  lemma ScannedHere(s: string)
    requires s != "" && !IsSpace(s[0])
    ensures var t := if s[0] in ['+', '-'] then s[1..] else s;
      ScanInt(s) == if t == "" || !IsDigit(t[0]) then None
                    else Some(if s[0] == '-' then -(ScanDigits(t, 0) as int) else ScanDigits(t, 0))
  {
  }

  lemma AfterDigits(digits: string, tail: string)
    requires AllDigits(digits) && (tail == "" || !IsDigit(tail[0]))
    ensures ScanDigits(digits + tail, 0) == ScanDigits(digits, 0)
  {
    ScanJoins(digits, tail, 0);
  }

  /** %d takes white space, a sign or none, and the digits, and stops there; their value is decimal. */
  lemma NumberScanned(w: string, sign: string, digits: string, tail: string)
    requires AllSpace(w) && IsSign(sign) && digits != "" && AllDigits(digits) && (tail == "" || !IsDigit(tail[0]))
    ensures ScanInt(w + (sign + (digits + tail))) == Some(Signed(sign, digits))
  {
    hide ScanInt, ScanDigits;
    var t := sign + (digits + tail);
    SpaceScanned(w, t);
    AfterDigits(digits, tail);
    assert digits[0] == (digits + tail)[0];
    if sign == "" {
      assert t == digits + tail;
    } else {
      assert t[0] == sign[0] && t[1..] == digits + tail;
    }
    ScannedHere(t);
  }

  /** Anything else is not a number. */
  lemma NoNumberScanned(w: string, sign: string, tail: string)
    requires AllSpace(w) && IsSign(sign)
    requires tail == "" || (!IsDigit(tail[0]) && (sign == "" ==> !IsSpace(tail[0]) && tail[0] !in ['+', '-']))
    ensures ScanInt(w + (sign + tail)) == None
  {
    var t := sign + tail;
    SpaceScanned(w, t);
    if sign == "" { assert t == tail; } else { assert t[0] == sign[0] && t[1..] == tail; }
  }

  // The component for a target: a colon asks for wrapping.
  function TargetComp(wrap: bool, id: int): string {
    (if wrap then ":" else "") + Decimal(id)
  }

  lemma TargetCompScanned(wrap: bool, id: int)
    ensures ScanIndex(TargetComp(wrap, id)) == Some((wrap, id))
  {
    DecimalScanned(id);
    if wrap {
      assert TargetComp(wrap, id)[1..] == Decimal(id);
    } else {
      assert TargetComp(wrap, id) == Decimal(id);
    }
  }

  function Pow10(k: nat): nat { if k == 0 then 1 else 10 * Pow10(k - 1) }

  lemma {:induction false} DigitsShort(n: nat, k: nat)
    requires k > 0 && n < Pow10(k)
    ensures |Digits(n)| <= k
  {
    if n >= 10 {
      assert Pow10(k) == 10 * Pow10(k - 1);
      DigitsShort(n / 10, k - 1);
    }
  }

  lemma TargetCompFits(wrap: bool, id: int)
    requires IsInt32(id)
    ensures |TargetComp(wrap, id)| < BUF_SIZE
  {
    assert Pow10(5) == 100000 && Pow10(10) == 10000000000 by {
      assert Pow10(2) == 100 && Pow10(4) == 10000 && Pow10(6) == 1000000 && Pow10(8) == 100000000;
    }
    DigitsShort(if id < 0 then -id else id, 10);
  }

  // The path that rurun builds, as the server sees it.
  function RunPath(wrap: bool, id: int, rest: string): string {
    Join(["", "run", TargetComp(wrap, id), rest], "/")
  }

  /** The server reads from the path that rurun builds the index that rurun meant, whatever the method's name. */
  lemma PathScanned(wrap: bool, id: int, rest: string)
    requires IsInt32(id)
    ensures Indexed(RunPath(wrap, id, rest)) == Some((wrap, id))
  {
    var comp := TargetComp(wrap, id);
    var head, tail := ["", "run", comp], Split(rest, "/");
    DigitsAreDigits(if id < 0 then -id else id);
    assert '/' !in comp && "/" == ['/'];
    JoinOfSplit(rest, "/");
    forall i | 0 <= i < |tail| ensures '/' !in tail[i] {
      WithinOne(tail[i], '/');
    }
    assert tail != [];
    JoinAppend(head, tail, "/");
    JoinAppend(head, [rest], "/");
    assert ["", "run", comp, rest] == head + [rest] && Join([rest], "/") == rest == Join(tail, "/");
    SplitOfJoin(head + tail, '/');
    assert (head + tail)[2] == comp;
    TargetCompScanned(wrap, id);
    TargetCompFits(wrap, id);
  }

  /**
    From the target id of rurun to the server's choice: it is taken exactly in
    these cases, and then the target is the one that rurun reports.
   */
  lemma TargetResolved(wrap: bool, id: int, rest: string, n: int)
    requires IsInt32(id) && n > 0
    ensures Resolved(RunPath(wrap, id, rest), n)
      == if (if wrap then id >= -n || id % n == 0 else -n <= id < n) then Some(id % n) else None
  {
    PathScanned(wrap, id, rest);
    AcceptedIndex(wrap, id, n);
  }

  // ----- get_target_ids -----

  predicate Ahead(x: int, b: int, c: int) {
    if c > 0 then x < b else x > b
  }

  // range(a, b, c)
  function Range(a: int, b: int, c: int): seq<int>
    requires c != 0
    decreases if c > 0 then b - a else a - b
  {
    if Ahead(a, b, c) then [a] + Range(a + c, b, c) else []
  }

  /** The steps of c from a on, as long as they have not reached b. */
  lemma {:induction false} RangeItems(a: int, b: int, c: int)
    requires c != 0
    ensures forall i :: 0 <= i < |Range(a, b, c)| ==> Range(a, b, c)[i] == a + i * c && Ahead(a + i * c, b, c)
    ensures !Ahead(a + |Range(a, b, c)| * c, b, c)
    decreases if c > 0 then b - a else a - b
  {
    if Ahead(a, b, c) {
      RangeItems(a + c, b, c);
      var n := |Range(a + c, b, c)|;
      assert (n + 1) * c == n * c + c;
      forall i | 0 < i <= n ensures a + i * c == (a + c) + (i - 1) * c {
        assert i * c == (i - 1) * c + c;
      }
    }
  }

  // str.isspace(), of an ASCII character
  predicate IsBlank(c: char) { IsSpace(c) || '\U{1C}' <= c <= '\U{1F}' }

  function Strip(s: string): string {
    if s == "" then s
    else if IsBlank(s[0]) then Strip(s[1..])
    else if IsBlank(s[|s| - 1]) then Strip(s[..|s| - 1])
    else s
  }

  // A digit, or an underscore before one.
  predicate GroupedAt(s: string, i: nat) {
    i < |s| && (IsDigit(s[i]) || (s[i] == '_' && i + 1 < |s| && IsDigit(s[i + 1])))
  }

  // Digits, with single underscores between them.
  predicate Numeral(s: string) {
    && s != "" && IsDigit(s[0])
    && forall i :: 0 <= i < |s| ==> GroupedAt(s, i)
  }

  function NumeralValue(s: string, acc: nat): nat {
    if s == "" then acc else NumeralValue(s[1..], if IsDigit(s[0]) then 10 * acc + DigitValue(s[0]) else acc)
  }

  // int() of a text
  function Number(s: string): Option<int> {
    var t := Strip(s);
    if t == "" then None
    else
      var digits := if t[0] in ['+', '-'] then t[1..] else t;
      if !Numeral(digits) then None
      else Some(if t[0] == '-' then -(NumeralValue(digits, 0) as int) else NumeralValue(digits, 0))
  }

  lemma {:induction false} ValueOfDigits(s: string, acc: nat)
    requires AllDigits(s)
    ensures NumeralValue(s, acc) == ScanDigits(s, acc)
  {
    if s != "" {
      ValueOfDigits(s[1..], 10 * acc + DigitValue(s[0]));
    }
  }

  /** A printed integer is read back. */
  lemma NumberRead(i: int)
    ensures Number(Decimal(i)) == Some(i) && Decimal(i) != "" && ':' !in Decimal(i) && ',' !in Decimal(i)
  {
    var n := if i < 0 then -i else i;
    DigitsAreDigits(n);
    DigitsScanned(n);
    ValueOfDigits(Digits(n), 0);
    if i < 0 { assert Decimal(i)[1..] == Digits(n); }
  }

  predicate Blanks(w: string) {
    forall i :: 0 <= i < |w| ==> IsBlank(w[i])
  }

  lemma StripOnce(s: string)
    ensures s != "" && IsBlank(s[0]) ==> Strip(s) == Strip(s[1..])
    ensures s != "" && !IsBlank(s[0]) && IsBlank(s[|s| - 1]) ==> Strip(s) == Strip(s[..|s| - 1])
    ensures s == "" || (!IsBlank(s[0]) && !IsBlank(s[|s| - 1])) ==> Strip(s) == s
  {
  }

  lemma {:induction false} StripLeft(w: string, s: string)
    requires Blanks(w)
    ensures Strip(w + s) == Strip(s)
  {
    hide Strip;
    if w == "" {
      assert w + s == s;
    } else {
      StripOnce(w + s);
      assert (w + s)[1..] == w[1..] + s;
      StripLeft(w[1..], s);
    }
  }

  lemma {:induction false} StripRight(t: string, v: string)
    requires t != "" && !IsBlank(t[0]) && !IsBlank(t[|t| - 1]) && Blanks(v)
    ensures Strip(t + v) == t
    decreases |v|
  {
    hide Strip;
    StripOnce(t + v);
    if v == "" {
      assert t + v == t;
    } else {
      assert (t + v)[..|t + v| - 1] == t + v[..|v| - 1];
      StripRight(t, v[..|v| - 1]);
    }
  }

  lemma StripKeeps(w: string, t: string, v: string)
    requires Blanks(w) && Blanks(v) && (t != "" ==> !IsBlank(t[0]) && !IsBlank(t[|t| - 1]))
    ensures Strip(w + (t + v)) == t
  {
    hide Strip;
    StripLeft(w, t + v);
    if t == "" {
      assert t + v == v + "";
      StripLeft(v, "");
      StripOnce("");
    } else {
      StripRight(t, v);
    }
  }

  lemma {:induction false} ValueJoins(a: string, b: string, acc: nat)
    requires AllDigits(a)
    ensures NumeralValue(a + b, acc) == NumeralValue(b, ScanDigits(a, acc))
  {
    if a == "" {
      assert a + b == b;
    } else {
      assert (a + b)[1..] == a[1..] + b;
      ValueJoins(a[1..], b, 10 * acc + DigitValue(a[0]));
    }
  }

  /** int() takes white space around a sign or none and decimal digits, among which underscores may stand. */
  lemma NumberOfText(w: string, sign: string, digits: string, more: string, v: string)
    requires Blanks(w) && Blanks(v) && IsSign(sign)
    requires digits != "" && AllDigits(digits) && more != "" && AllDigits(more)
    ensures Number(w + (sign + digits + v)) == Some(Signed(sign, digits))
    ensures Number(w + (sign + (digits + "_" + more) + v)) == Some(Signed(sign, digits + more))
  {
    hide Number, NumeralValue, ScanDigits, Numeral;
    ValueOfDigits(digits, 0);
    GroupsAreNumeral(digits, more);
    NumeralText(w, sign, digits, v);
    GroupsValue(digits, more);
    NumeralText(w, sign, digits + "_" + more, v);
  }

  lemma GroupsAreNumeral(digits: string, more: string)
    requires digits != "" && AllDigits(digits) && more != "" && AllDigits(more)
    ensures Numeral(digits) && Numeral(digits + "_" + more)
  {
    var text := digits + "_" + more;
    assert forall i :: 0 <= i < |digits| ==> text[i] == digits[i];
    assert forall i :: |digits| < i < |text| ==> text[i] == more[i - |digits| - 1];
  }

  lemma GroupsValue(digits: string, more: string)
    requires AllDigits(digits) && AllDigits(more)
    ensures NumeralValue(digits + "_" + more, 0) == ScanDigits(digits + more, 0)
  {
    assert digits + "_" + more == digits + ("_" + more) && ("_" + more)[1..] == more;
    ValueJoins(digits, "_" + more, 0);
    ValueOfDigits(more, ScanDigits(digits, 0));
    ScanJoins(digits, more, 0);
  }

  lemma NumeralText(w: string, sign: string, text: string, v: string)
    requires Blanks(w) && Blanks(v) && IsSign(sign) && Numeral(text)
    ensures Number(w + (sign + text + v))
      == Some(if sign == "-" then -(NumeralValue(text, 0) as int) else NumeralValue(text, 0))
  {
    hide Strip;
    var t := sign + text;
    assert GroupedAt(text, |text| - 1);
    assert t[|t| - 1] == text[|text| - 1] && t[0] == if sign == "" then text[0] else sign[0];
    StripKeeps(w, t, v);
    if sign == "" { assert t == text; } else { assert t[1..] == text; }
  }

  lemma NumeralChars(s: string, k: nat)
    requires Numeral(s) && k < |s|
    ensures IsDigit(s[k]) || s[k] == '_'
  {
    assert GroupedAt(s, k);
  }

  /** Text with any other character between the white space is refused, and so is white space alone. */
  lemma NoNumber(w: string, t: string, v: string, i: nat)
    requires Blanks(w) && Blanks(v) && (t != "" ==> !IsBlank(t[0]) && !IsBlank(t[|t| - 1]))
    requires t == "" || (i < |t| && !IsDigit(t[i]) && t[i] != '_' && (i == 0 ==> t[0] !in ['+', '-']))
    ensures Number(w + (t + v)) == None
  {
    hide Strip, Numeral;
    StripKeeps(w, t, v);
    if t != "" {
      var digits := if t[0] in ['+', '-'] then t[1..] else t;
      var k := if t[0] in ['+', '-'] then i - 1 else i;
      assert digits[k] == t[i];
      if Numeral(digits) { NumeralChars(digits, k); }
    }
  }

  // The fields of an element of a target spec.
  function FieldsRange(abc: seq<string>, targetcount: int): Option<seq<int>>
    requires abc != []
  {
    var a := if abc[0] == "" then Some(0) else Number(abc[0]);
    if |abc| > 3 || a.None? then None
    else if |abc| == 1 then Some(Range(a.value, a.value + 1, 1))
    else
      var b := if abc[1] == "" then Some(targetcount) else Number(abc[1]);
      var c := if |abc| == 2 then Some(1) else Number(abc[2]);
      if b.None? || c.None? || c == Some(0) then None else Some(Range(a.value, b.value, c.value))
  }

  // One element of a target spec.
  function TargetRange(el: string, targetcount: int): Option<seq<int>> {
    FieldsRange(Split(el, ":"), targetcount)
  }

  lemma SingleTarget(a: int, targetcount: int)
    ensures TargetRange(Decimal(a), targetcount) == Some([a])
  {
    NumberRead(a);
    SplitOfJoin([Decimal(a)], ':');
    assert Range(a, a + 1, 1) == [a] + Range(a + 1, a + 1, 1) == [a] + [];
    assert [a] + [] == [a];
  }

  // A field that may be left empty.
  function Field(a: Option<int>): string {
    if a.None? then "" else Decimal(a.value)
  }

  lemma FieldRead(a: Option<int>)
    ensures ':' !in Field(a) && (a.Some? ==> Field(a) != "" && Number(Field(a)) == a)
  {
    if a.Some? { NumberRead(a.value); }
  }

  /**
    The forms of an element: without a first number it starts at 0, without a
    second one it ends before the number of targets, and the step is 1 unless it
    is given; a step must not be empty or 0, and there is no fourth field.
   */
  lemma ElementForms(a: Option<int>, b: Option<int>, c: int, more: seq<string>, n: int)
    requires forall i :: 0 <= i < |more| ==> ':' !in more[i]
    ensures var first, last := if a.None? then 0 else a.value, if b.None? then n else b.value;
      && TargetRange(Field(a), n) == Some(Range(first, first + 1, 1))
      && TargetRange(Join([Field(a), Field(b)], ":"), n) == Some(Range(first, last, 1))
      && TargetRange(Join([Field(a), Field(b), Decimal(c)], ":"), n)
           == (if c == 0 then None else Some(Range(first, last, c)))
      && TargetRange(Join([Field(a), Field(b), ""], ":"), n) == None
      && (more != [] ==> TargetRange(Join([Field(a), Field(b), Decimal(c)] + more, ":"), n) == None)
  {
    hide Split, Join, Number, Decimal, Range, IsDigit, Field;
    FieldRead(a);
    FieldRead(b);
    NumberRead(c);
    NoField();
    FieldIsEmpty(a);
    FieldIsEmpty(b);
    OneJoined(Field(a));
    SplitOfJoin([Field(a)], ':');
    SplitOfJoin([Field(a), Field(b)], ':');
    SplitOfJoin([Field(a), Field(b), Decimal(c)], ':');
    SplitOfJoin([Field(a), Field(b), ""], ':');
    SplitOfJoin([Field(a), Field(b), Decimal(c)] + more, ':');
  }

  lemma NoField()
    ensures Number("") == None
  {
  }

  lemma FieldIsEmpty(a: Option<int>)
    ensures a.None? ==> Field(a) == ""
  {
  }

  lemma OneJoined(a: string)
    ensures Join([a], ":") == a
  {
  }

  // The element a:b:c.
  function Element(r: (int, int, int)): string {
    Join([Decimal(r.0), Decimal(r.1), Decimal(r.2)], ":")
  }

  function Elements(ranges: seq<(int, int, int)>): seq<string> {
    seq(|ranges|, i requires 0 <= i < |ranges| => Element(ranges[i]))
  }

  lemma ElementRead(r: (int, int, int), targetcount: int)
    ensures TargetRange(Element(r), targetcount) == if r.2 == 0 then None else Some(Range(r.0, r.1, r.2))
    ensures ',' !in Element(r)
  {
    hide Split, Join, Number, Decimal, Range, IsDigit;
    var (a, b, c) := (Decimal(r.0), Decimal(r.1), Decimal(r.2));
    NumberRead(r.0);
    NumberRead(r.1);
    NumberRead(r.2);
    SplitOfJoin([a, b, c], ':');
    ThreeJoined(a, b, c);
  }

  lemma ThreeJoined(a: string, b: string, c: string)
    ensures Join([a, b, c], ":") == a + ":" + (b + ":" + c)
  {
    var bc := [b, c];
    assert [a, b, c][1..] == bc && bc[1..] == [c];
    assert Join(bc, ":") == b + ":" + Join([c], ":");
  }

  /** Any ranges that are written out as a:b:c with commas between them are what the spec stands for. */
  lemma TargetSpecRead(ranges: seq<(int, int, int)>, targetcount: int)
    requires ranges != []
    ensures Split(Join(Elements(ranges), ","), ",") == Elements(ranges)
    ensures forall i :: 0 <= i < |ranges| ==>
      var (a, b, c) := ranges[i];
      TargetRange(Elements(ranges)[i], targetcount) == if c == 0 then None else Some(Range(a, b, c))
  {
    hide TargetRange, Element;
    forall i | 0 <= i < |ranges|
      ensures ',' !in Elements(ranges)[i]
      ensures var (a, b, c) := ranges[i];
        TargetRange(Elements(ranges)[i], targetcount) == if c == 0 then None else Some(Range(a, b, c))
    {
      ElementRead(ranges[i], targetcount);
    }
    SplitOfJoin(Elements(ranges), ',');
  }

  // One turn of the loop.
  method ReadElement(el: string, targetcount: int) returns (r: Option<seq<int>>)
    ensures r == TargetRange(el, targetcount)
  {
    var a, b, c := Some(0), Some(1), Some(1);
    var abc := Split(el, ":");
    if |abc| > 3 {
      return None;
    }
    if abc[0] != "" {
      a := Number(abc[0]);
      if a.None? {
        return None;
      }
    }
    if |abc| == 1 {
      b := Some(a.value + 1);
    } else {
      b := if abc[1] != "" then Number(abc[1]) else Some(targetcount);
      if b.None? {
        return None;
      }
      if |abc| == 3 {
        c := Number(abc[2]);
        if c.None? || c.value == 0 {
          return None;
        }
      }
    }
    r := Some(Range(a.value, b.value, c.value));
  }

  /** A range for every element, or failure if one is malformed. */
  method GetTargetIds(targetcount: int, targetspec: string) returns (targetranges: Option<seq<seq<int>>>)
    ensures targetranges.None? <==>
      exists i :: 0 <= i < |Split(targetspec, ",")| && TargetRange(Split(targetspec, ",")[i], targetcount).None?
    ensures targetranges.Some? ==> |targetranges.value| == |Split(targetspec, ",")|
    ensures targetranges.Some? ==> forall i :: 0 <= i < |targetranges.value| ==>
      TargetRange(Split(targetspec, ",")[i], targetcount) == Some(targetranges.value[i])
  {
    var els := Split(targetspec, ",");
    var ranges: seq<seq<int>> := [];
    for i := 0 to |els|
      invariant |ranges| == i
      invariant forall k :: 0 <= k < i ==> TargetRange(els[k], targetcount) == Some(ranges[k])
    {
      var el := ReadElement(els[i], targetcount);
      if el.None? {
        return None;
      }
      ranges := ranges + [el.value];
    }
    targetranges := Some(ranges);
  }

  // Every id with the number of its range, in order.
  function Pairs(ranges: seq<seq<int>>): seq<(nat, int)> {
    if ranges == [] then []
    else
      var g := |ranges| - 1;
      Pairs(ranges[..g]) + seq(|ranges[g]|, i requires 0 <= i < |ranges[g]| => (g, ranges[g][i]))
  }

  /** A pair for every id of every range, and no others. */
  lemma {:induction false} PairsAreTheTargets(ranges: seq<seq<int>>, g: nat, id: int)
    ensures (g, id) in Pairs(ranges) <==> g < |ranges| && id in ranges[g]
    decreases |ranges|
  {
    if ranges != [] {
      var last := |ranges| - 1;
      PairsAreTheTargets(ranges[..last], g, id);
      var own := seq(|ranges[last]|, i requires 0 <= i < |ranges[last]| => (last, ranges[last][i]));
      if g == last && id in ranges[last] {
        var i :| 0 <= i < |ranges[last]| && ranges[last][i] == id;
        assert own[i] == (g, id);
      }
    }
  }

  function Total(ranges: seq<seq<int>>): nat {
    if ranges == [] then 0 else Total(ranges[..|ranges| - 1]) + |ranges[|ranges| - 1]|
  }

  /** The pairs come range by range, and within a range in its order. */
  lemma {:induction false} PairsInOrder(ranges: seq<seq<int>>, g: nat, i: nat)
    requires g < |ranges| && i < |ranges[g]|
    ensures |Pairs(ranges)| == Total(ranges) && Total(ranges[..g]) + i < Total(ranges)
    ensures Pairs(ranges)[Total(ranges[..g]) + i] == (g, ranges[g][i])
    decreases |ranges|
  {
    var last := |ranges| - 1;
    var init := ranges[..last];
    PairsLength(init);
    assert init[..last] == init;
    if g < last {
      PairsInOrder(init, g, i);
      assert init[..g] == ranges[..g];
    }
  }

  lemma {:induction false} PairsLength(ranges: seq<seq<int>>)
    ensures |Pairs(ranges)| == Total(ranges)
  {
    if ranges != [] {
      PairsLength(ranges[..|ranges| - 1]);
    }
  }

  // ----- replicating the targets -----

  function Times<T>(s: seq<T>, m: nat): seq<T> {
    if m == 0 then [] else s + Times(s, m - 1)
  }

  lemma {:induction false} TimesAt<T>(s: seq<T>, m: nat, i: nat)
    requires s != [] && i < m * |s|
    ensures |Times(s, m)| == m * |s| && Times(s, m)[i] == s[i % |s|]
  {
    if m > 0 {
      assert m * |s| == |s| + (m - 1) * |s|;
      if i < |s| {
        ModUnique(i, |s|, 0, i);
        TimesLength(s, m - 1);
      } else {
        TimesAt(s, m - 1, i - |s|);
        ModShift(i - |s|, |s|);
      }
    }
  }

  lemma {:induction false} TimesLength<T>(s: seq<T>, m: nat)
    ensures |Times(s, m)| == m * |s|
  {
    if m > 0 {
      TimesLength(s, m - 1);
      assert m * |s| == |s| + (m - 1) * |s|;
    }
  }

  // ceil(a / b)
  function Ceiling(a: int, b: int): int
    requires b > 0
  {
    -((-a) / b)
  }

  // (spec * ceil(ntasks / speccount))[:ntasks], with the float division taken as exact
  function Replicated<T>(spec: seq<T>, ntasks: nat): (r: seq<T>)
    requires spec != []
  {
    var all := Times(spec, if Ceiling(ntasks, |spec|) < 0 then 0 else Ceiling(ntasks, |spec|));
    if ntasks <= |all| then all[..ntasks] else all
  }

  /** There are as many entries as tasks, and task i has entry i modulo the number of given targets. */
  lemma ReplicationCovers<T>(spec: seq<T>, ntasks: nat)
    requires spec != []
    ensures |Replicated(spec, ntasks)| == ntasks
    ensures forall i :: 0 <= i < ntasks ==> Replicated(spec, ntasks)[i] == spec[i % |spec|]
  {
    var m := Ceiling(ntasks, |spec|);
    CeilingCovers(ntasks, |spec|);
    TimesLength(spec, m);
    forall i | 0 <= i < ntasks ensures Replicated(spec, ntasks)[i] == spec[i % |spec|] {
      TimesAt(spec, m, i);
    }
  }

  lemma CeilingCovers(a: int, b: int)
    requires b > 0 && a >= 0
    ensures Ceiling(a, b) >= 0 && a <= Ceiling(a, b) * b < a + b
  {
    var x: int := -a;
    var q, r := x / b, x % b;
    assert x == q * b + r;
    assert (-q) * b == -(q * b);
    if q > 0 {
      MultipleIsLarge(q, b);
    }
  }
}
