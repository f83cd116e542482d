/**
 The size spellings of the command line, in KiB: `10G`, `100 MiB`, `512B`.
 */
module ParseSize {
  import opened Names
  import opened Decimal

  // The white space Unicode assigns, which surrounding text is trimmed of.
  predicate IsSpace(c: char)
  {
    var n := c as int;
    || 9 <= n <= 13 || n == 0x20 || n == 0x85 || n == 0xA0 || n == 0x1680 || 0x2000 <= n <= 0x200A
    || n == 0x2028 || n == 0x2029 || n == 0x202F || n == 0x205F || n == 0x3000
  }

  predicate Blank(s: string)
  {
    forall i | 0 <= i < |s| :: IsSpace(s[i])
  }

  function TrimLeft(s: string): string
  {
    if s != [] && IsSpace(s[0]) then TrimLeft(s[1..]) else s
  }

  function TrimRight(s: string): string
  {
    if s != [] && IsSpace(s[|s| - 1]) then TrimRight(s[..|s| - 1]) else s
  }

  function TrimSpace(s: string): string
  {
    TrimRight(TrimLeft(s))
  }

  predicate EndsFold(s: string, suffix: string)
  {
    |s| >= |suffix| && forall i | 0 <= i < |suffix| :: FoldChar(s[|s| - |suffix| + i]) == suffix[i]
  }

  // The text without its byte marker, and whether that marker was a bare `b`.
  function SplitMarker(s: string): (string, bool)
  {
    if |s| > 1 && EndsFold(s, "ib") then (s[..|s| - 2], false)
    else if |s| > 1 && EndsFold(s, "i") then (s[..|s| - 1], false)
    else if |s| > 1 && EndsFold(s, "b") then (s[..|s| - 1], true)
    else (s, false)
  }

  // KiB per unit of a scale letter.
  function Scale(c: char): (r: Option<nat>)
    ensures r.Some? ==> r.value > 0
  {
    match FoldChar(c)
    case 'k' => Some(1)
    case 'm' => Some(1024)
    case 'g' => Some(1024 * 1024)
    case 't' => Some(1024 * 1024 * 1024)
    case _ => None
  }

  // A number of units as KiB, checked for overflow.
  function Sized(value: int, multiplier: nat, inBytes: bool): Option<int>
    requires multiplier > 0
  {
    if value <= 0 || value > INT64_MAX / multiplier then None
    else if inBytes && multiplier == 1 then
      if value % 1024 != 0 then None else Some(value / 1024)
    else Some(value * multiplier)
  }

  function Count(digits: string, multiplier: nat, inBytes: bool): Option<int>
    requires multiplier > 0
  {
    var value := ParseInt(TrimSpace(digits));
    if value.None? then None else Sized(value.value, multiplier, inBytes)
  }

  function ParseTrimmed(trimmed: string, inBytes: bool): Option<int>
  {
    if trimmed == "" then None
    else
      var unit := trimmed[|trimmed| - 1];
      match Scale(unit)
      case Some(multiplier) => Count(trimmed[..|trimmed| - 1], multiplier, inBytes)
      case None => if IsDigit(unit) then Count(trimmed, 1, inBytes) else None
  }

  function Parse(text: string): Option<int>
  {
    var (trimmed, inBytes) := SplitMarker(TrimSpace(text));
    ParseTrimmed(trimmed, inBytes)
  }

  // The reference: what the spellings mean, whatever the parser does

  // Bytes per unit of a scale letter.
  function LetterBytes(c: char): Option<nat>
  {
    match c
    case 'K' | 'k' => Some(1024)
    case 'M' | 'm' => Some(1048576)
    case 'G' | 'g' => Some(1073741824)
    case 'T' | 't' => Some(1099511627776)
    case _ => None
  }

  // A byte marker in either case, or nothing.
  predicate IsMarker(m: string)
  {
    m in ["", "i", "I", "ib", "iB", "Ib", "IB"] || IsBareB(m)
  }

  predicate IsBareB(m: string)
  {
    m == "b" || m == "B"
  }

  // White space, by code point.
  predicate IsBlank(c: char)
  {
    c as int in {0x09, 0x0A, 0x0B, 0x0C, 0x0D, 0x20, 0x85, 0xA0, 0x1680, 0x2000, 0x2001, 0x2002, 0x2003, 0x2004, 0x2005,
                 0x2006, 0x2007, 0x2008, 0x2009, 0x200A, 0x2028, 0x2029, 0x202F, 0x205F, 0x3000}
  }

  predicate Blanks(s: string)
  {
    forall i | 0 <= i < |s| :: IsBlank(s[i])
  }

  // What an operator writes: blanks, an optional plus, digits, an optional scale
  // letter that blanks may precede, an optional marker, blanks.
  datatype Spelling = Spelling(left: string, plus: bool, digits: string, gap: string, unit: string, marker: string, right: string)

  predicate WellFormed(w: Spelling)
  {
    && Blanks(w.left) && Blanks(w.gap) && Blanks(w.right)
    && IsDigits(w.digits)
    && (if w.unit == "" then w.gap == "" else |w.unit| == 1 && LetterBytes(w.unit[0]).Some?)
    && IsMarker(w.marker)
  }

  function Body(w: Spelling): string
  {
    (if w.plus then "+" else "") + w.digits + w.gap + w.unit
  }

  function Render(w: Spelling): string
  {
    w.left + Body(w) + w.marker + w.right
  }

  // Bytes per unit, as documented: scale letters are binary whatever marker
  // follows them, and without one only a bare `b` counts bytes.
  function UnitBytes(w: Spelling): nat
    requires WellFormed(w)
  {
    if w.unit != "" then LetterBytes(w.unit[0]).value
    else if IsBareB(w.marker) then 1
    else 1024
  }

  // A number of units in KiB, if it is a positive whole number of them and fits
  // 64 bits.
  function InKib(value: nat, unitBytes: nat): Option<int>
  {
    var bytes := value * unitBytes;
    if 0 < value <= 9223372036854775807 && bytes % 1024 == 0 && bytes / 1024 <= 9223372036854775807
    then Some(bytes / 1024)
    else None
  }

  function Meaning(w: Spelling): Option<int>
    requires WellFormed(w)
  {
    InKib(Value(w.digits), UnitBytes(w))
  }

  // A `k` followed by a bare `b`.
  predicate KilobytesSpelled(w: Spelling)
  {
    (w.unit == "k" || w.unit == "K") && IsBareB(w.marker)
  }

  /** The parser's own tables are the reference's. */
  lemma TablesAgree(c: char)
    ensures IsSpace(c) <==> IsBlank(c)
    ensures Scale(c) == match LetterBytes(c) case Some(bytes) => Some(bytes / 1024) case None => None
    ensures Scale(c).Some? ==> LetterBytes(c).value == 1024 * Scale(c).value
  {
  }

  lemma BlanksAre(s: string)
    ensures Blank(s) <==> Blanks(s)
  {
    forall i | 0 <= i < |s| ensures IsSpace(s[i]) <==> IsBlank(s[i]) {
      TablesAgree(s[i]);
    }
  }

  // Trimming

  lemma {:induction false} TrimLeftDrops(l: string, s: string)
    requires Blank(l) && (s == [] || !IsSpace(s[0]))
    ensures TrimLeft(l + s) == s
    decreases |l|
  {
    if l == [] {
      assert l + s == s;
    } else {
      assert (l + s)[1..] == l[1..] + s;
      TrimLeftDrops(l[1..], s);
    }
  }

  lemma {:induction false} TrimRightDrops(s: string, r: string)
    requires Blank(r) && (s == [] || !IsSpace(s[|s| - 1]))
    ensures TrimRight(s + r) == s
    decreases |r|
  {
    if r == [] {
      assert s + r == s;
    } else {
      assert (s + r)[..|s + r| - 1] == s + r[..|r| - 1];
      TrimRightDrops(s, r[..|r| - 1]);
    }
  }

  lemma {:induction false} TrimLeftSplit(s: string) returns (l: string)
    ensures Blank(l) && s == l + TrimLeft(s)
    ensures TrimLeft(s) == [] || !IsSpace(TrimLeft(s)[0])
    decreases |s|
  {
    if s != [] && IsSpace(s[0]) {
      var m := TrimLeftSplit(s[1..]);
      l := [s[0]] + m;
    } else {
      l := [];
    }
  }

  lemma {:induction false} TrimRightSplit(s: string) returns (r: string)
    ensures Blank(r) && s == TrimRight(s) + r
    ensures TrimRight(s) == [] || !IsSpace(TrimRight(s)[|TrimRight(s)| - 1])
    decreases |s|
  {
    if s != [] && IsSpace(s[|s| - 1]) {
      var m := TrimRightSplit(s[..|s| - 1]);
      r := m + [s[|s| - 1]];
    } else {
      r := [];
    }
  }

  /** Surrounding blanks are dropped and nothing else. */
  lemma TrimDrops(l: string, s: string, r: string)
    requires Blank(l) && Blank(r) && s != [] && !IsSpace(s[0]) && !IsSpace(s[|s| - 1])
    ensures TrimSpace(l + s + r) == s
  {
    assert l + s + r == l + (s + r);
    TrimLeftDrops(l, s + r);
    TrimRightDrops(s, r);
  }

  lemma TrimSplit(s: string) returns (l: string, r: string)
    ensures Blank(l) && Blank(r) && s == l + TrimSpace(s) + r
    ensures TrimSpace(s) != [] ==> !IsSpace(TrimSpace(s)[0])
  {
    l := TrimLeftSplit(s);
    r := TrimRightSplit(TrimLeft(s));
  }

  // From a spelling to its size

  // The last character a spelling's body can have.
  predicate Closes(c: char)
  {
    IsDigit(c) || Scale(c).Some?
  }

  lemma BodyShape(w: Spelling)
    requires WellFormed(w)
    ensures Body(w) != [] && !IsSpace(Body(w)[0]) && Closes(Body(w)[|Body(w)| - 1])
  {
    assert IsDigit(w.digits[0]) && IsDigit(w.digits[|w.digits| - 1]);
    if w.unit != "" {
      TablesAgree(w.unit[0]);
    }
  }

  lemma EndsFoldIs(s: string)
    requires |s| > 1
    ensures EndsFold(s, "i") <==> FoldChar(s[|s| - 1]) == 'i'
    ensures EndsFold(s, "b") <==> FoldChar(s[|s| - 1]) == 'b'
    ensures EndsFold(s, "ib") <==> FoldChar(s[|s| - 2]) == 'i' && FoldChar(s[|s| - 1]) == 'b'
  {
    assert EndsFold(s, "i") <==> FoldChar(s[|s| - 1]) == "i"[0];
    assert EndsFold(s, "b") <==> FoldChar(s[|s| - 1]) == "b"[0];
    assert EndsFold(s, "ib") <==> FoldChar(s[|s| - 2]) == "ib"[0] && FoldChar(s[|s| - 1]) == "ib"[1];
  }

  lemma MarkerSplits(body: string, marker: string)
    requires body != [] && Closes(body[|body| - 1])
    requires IsMarker(marker)
    ensures SplitMarker(body + marker) == (body, IsBareB(marker))
  {
    var s := body + marker;
    assert s[..|body|] == body;
    if marker == [] {
      assert s == body;
    }
    if |s| > 1 {
      EndsFoldIs(s);
    }
  }

  lemma CoreTrimmed(w: Spelling)
    requires WellFormed(w)
    ensures TrimSpace(Render(w)) == Body(w) + w.marker
  {
    var core := Body(w) + w.marker;
    BodyShape(w);
    assert Render(w) == w.left + core + w.right;
    BlanksAre(w.left);
    BlanksAre(w.right);
    TrimDrops(w.left, core, w.right);
  }

  function Number(w: Spelling): string
  {
    (if w.plus then "+" else "") + w.digits
  }

  lemma NumberParsed(w: Spelling)
    requires WellFormed(w)
    ensures TrimSpace(Number(w) + w.gap) == Number(w)
    ensures ParseInt(Number(w)) == if Value(w.digits) <= INT64_MAX then Some(Value(w.digits)) else None
  {
    var number := Number(w);
    assert IsDigit(w.digits[0]) && IsDigit(w.digits[|w.digits| - 1]);
    assert [] + number + w.gap == number + w.gap;
    BlanksAre(w.gap);
    TrimDrops([], number, w.gap);
    assert w.plus ==> number[1..] == w.digits;
    assert !w.plus ==> number == w.digits;
  }

  // How a spelling is read: a `k` before a bare `b` is not there.
  function Reading(w: Spelling): Option<int>
    requires WellFormed(w)
  {
    if KilobytesSpelled(w) then Meaning(w.(unit := "", gap := "")) else Meaning(w)
  }

  // The checked product and the reference agree on every scale.
  lemma SizedIsInKib(value: int, multiplier: nat, inBytes: bool)
    requires 0 <= value <= INT64_MAX && multiplier in {1, 1024, 1024 * 1024, 1024 * 1024 * 1024}
    ensures Sized(value, multiplier, inBytes) == InKib(value, if inBytes && multiplier == 1 then 1 else 1024 * multiplier)
  {
    var scaled := value * multiplier;
    assert value * (1024 * multiplier) == 1024 * scaled;
    assert (1024 * scaled) % 1024 == 0 && (1024 * scaled) / 1024 == scaled;
  }

  function Multiplier(w: Spelling): (m: nat)
    requires WellFormed(w)
    ensures m in {1, 1024, 1024 * 1024, 1024 * 1024 * 1024}
    ensures m == 1 <==> w.unit in ["", "k", "K"]
    ensures w.unit != "" ==> Scale(w.unit[0]) == Some(m) && LetterBytes(w.unit[0]) == Some(1024 * m)
  {
    if w.unit == "" then 1
    else
      TablesAgree(w.unit[0]);
      assert w.unit == [w.unit[0]];
      Scale(w.unit[0]).value
  }

  lemma CountReads(w: Spelling)
    requires WellFormed(w)
    ensures Count(Number(w) + w.gap, Multiplier(w), IsBareB(w.marker)) == Reading(w)
  {
    NumberParsed(w);
    if Value(w.digits) <= INT64_MAX {
      SizedIsInKib(Value(w.digits), Multiplier(w), IsBareB(w.marker));
    }
  }

  // What the parser finds at the end of a body.
  lemma BodyEnds(w: Spelling, body: string)
    requires WellFormed(w) && body == Body(w)
    ensures body != []
    ensures w.unit == "" ==> body == Number(w) + w.gap && IsDigit(body[|body| - 1]) && Scale(body[|body| - 1]).None?
    ensures w.unit != "" ==> body[..|body| - 1] == Number(w) + w.gap && Scale(body[|body| - 1]) == Some(Multiplier(w))
  {
    if w.unit == "" {
      assert body[|body| - 1] == w.digits[|w.digits| - 1];
      assert IsDigit(w.digits[|w.digits| - 1]);
    } else {
      assert body[|body| - 1] == w.unit[0];
    }
  }

  lemma BodyRead(w: Spelling, body: string)
    requires WellFormed(w) && body == Body(w)
    ensures ParseTrimmed(body, IsBareB(w.marker)) == Reading(w)
  {
    CountReads(w);
    BodyEnds(w, body);
  }

  /** Every well-formed spelling is read as documented, except that `KB` counts
      bytes. */
  lemma SpellingRead(w: Spelling)
    requires WellFormed(w)
    ensures Parse(Render(w)) == Reading(w)
  {
    CoreTrimmed(w);
    BodyShape(w);
    MarkerSplits(Body(w), w.marker);
    BodyRead(w, Body(w));
  }

  /** The reading departs from the meaning for exactly the `KB` spellings of a
      positive 64-bit number. */
  lemma ReadingIsMeaningExactly(w: Spelling)
    requires WellFormed(w)
    ensures Parse(Render(w)) == Meaning(w) <==> !(KilobytesSpelled(w) && 0 < Value(w.digits) <= INT64_MAX)
  {
    SpellingRead(w);
    if KilobytesSpelled(w) {
      SizedIsInKib(Value(w.digits) % (INT64_MAX + 1), 1, false);
    }
  }

  lemma DigitsOf2048()
    ensures IsDigits("2048") && Value("2048") == 2048
  {
    var s := "2048";
    assert s[..3][..2] == s[..2] && s[..2][..1] == s[..1] && s[..1][..0] == [];
    assert Value(s[..1]) == 2;
    assert Value(s[..2]) == 20;
    assert Value(s[..3]) == 204;
  }

  lemma KilobyteShape(w: Spelling)
    requires w == Spelling("", false, "2048", "", "K", "B", "") && IsDigits(w.digits)
    ensures WellFormed(w) && KilobytesSpelled(w) && Render(w) == "2048KB"
  {
  }

  lemma KilobyteRead(w: Spelling, n: int)
    requires WellFormed(w) && KilobytesSpelled(w) && Value(w.digits) == n && 0 < n <= INT64_MAX && n % 1024 == 0
    ensures Meaning(w) == Some(n) && Parse(Render(w)) == Some(n / 1024)
  {
    SpellingRead(w);
    SizedIsInKib(n, 1, false);
  }

  /** Two mebibytes written as kilobytes come out as two kibibytes. */
  lemma KilobytesCountBytes(w: Spelling)
    requires w == Spelling("", false, "2048", "", "K", "B", "")
    ensures WellFormed(w) && Render(w) == "2048KB" && Meaning(w) == Some(2048) && Parse("2048KB") == Some(2)
  {
    DigitsOf2048();
    KilobyteShape(w);
    KilobyteRead(w, 2048);
  }

  // From an accepted text to its spelling

  lemma MarkerFound(core: string)
    ensures var body := SplitMarker(core).0;
            |body| <= |core| && core[..|body|] == body && IsMarker(core[|body|..])
  {
    var body := SplitMarker(core).0;
    if |core| > 1 {
      EndsFoldIs(core);
      assert core[|core| - 1..] == [core[|core| - 1]] && core[|core| - 2..] == [core[|core| - 2], core[|core| - 1]];
    }
    assert body == core ==> core[|body|..] == [];
  }

  lemma NumberFound(text: string) returns (plus: bool, digits: string)
    requires ParseInt(text).Some? && ParseInt(text).value > 0
    ensures IsDigits(digits) && text == (if plus then "+" else "") + digits
  {
    plus := text[0] == '+';
    digits := if plus then text[1..] else text;
  }

  lemma BlankEdge(l: string, s: string, r: string)
    requires Blank(l) && Blank(r)
    ensures l + s != [] && !IsSpace((l + s)[0]) ==> l == []
    ensures s + r != [] && !IsSpace((s + r)[|s + r| - 1]) ==> r == []
  {
    assert l != [] ==> (l + s)[0] == l[0];
    assert r != [] ==> (s + r)[|s + r| - 1] == r[|r| - 1];
  }

  lemma CountFound(d: string, multiplier: nat, inBytes: bool) returns (plus: bool, digits: string, gap: string)
    requires multiplier > 0 && Count(d, multiplier, inBytes).Some?
    requires d == [] || !IsSpace(d[0])
    ensures IsDigits(digits) && Blank(gap) && d == (if plus then "+" else "") + digits + gap
  {
    var l, r := TrimSplit(d);
    var text := TrimSpace(d);
    assert d == l + (text + r);
    BlankEdge(l, text + r, []);
    plus, digits := NumberFound(text);
    gap := r;
  }

  lemma BodyFound(body: string, inBytes: bool) returns (plus: bool, digits: string, gap: string, unit: string)
    requires body != [] && !IsSpace(body[0])
    requires ParseTrimmed(body, inBytes).Some?
    ensures body == (if plus then "+" else "") + digits + gap + unit
    ensures IsDigits(digits) && Blank(gap)
    ensures if unit == "" then gap == "" else |unit| == 1 && LetterBytes(unit[0]).Some?
  {
    var last := body[|body| - 1];
    TablesAgree(last);
    match Scale(last)
    case Some(multiplier) =>
      plus, digits, gap := CountFound(body[..|body| - 1], multiplier, inBytes);
      unit := [last];
    case None =>
      plus, digits, gap := CountFound(body, 1, inBytes);
      unit := "";
      BlankEdge([], (if plus then "+" else "") + digits, gap);
  }

  lemma CoreFound(core: string) returns (body: string, marker: string, inBytes: bool)
    ensures (body, inBytes) == SplitMarker(core) && core == body + marker
    ensures IsMarker(marker)
  {
    MarkerFound(core);
    body, inBytes := SplitMarker(core).0, SplitMarker(core).1;
    marker := core[|body|..];
  }

  lemma BodyOpens(core: string, body: string, marker: string)
    requires core == body + marker && body != []
    ensures core != [] && body[0] == core[0]
  {
  }

  lemma RenderJoins(w: Spelling, body: string, core: string)
    requires body == Body(w) && core == body + w.marker
    ensures Render(w) == w.left + core + w.right
  {
  }

  lemma CoreSpelled(core: string) returns (w: Spelling)
    requires ParseTrimmed(SplitMarker(core).0, SplitMarker(core).1).Some?
    requires core != [] ==> !IsSpace(core[0])
    ensures WellFormed(w) && w.left == [] && w.right == [] && Body(w) + w.marker == core
  {
    var body, marker, inBytes := CoreFound(core);
    BodyOpens(core, body, marker);
    var plus, digits, gap, unit := BodyFound(body, inBytes);
    BlanksAre(gap);
    w := Spelling([], plus, digits, gap, unit, marker, []);
  }

  /** Only well-formed spellings are accepted. */
  lemma AcceptedIsSpelled(text: string) returns (w: Spelling)
    requires Parse(text).Some?
    ensures WellFormed(w) && Render(w) == text
  {
    var left, right := TrimSplit(text);
    var core := TrimSpace(text);
    var bare := CoreSpelled(core);
    BlanksAre(left);
    BlanksAre(right);
    w := bare.(left := left, right := right);
    RenderJoins(w, Body(bare), core);
  }

  /** Acceptance and result, both ways: a text gives `size` exactly when some
      well-formed spelling of it reads as `size`. */
  lemma ParsedExactly(text: string, size: int)
    ensures Parse(text) == Some(size) <==>
            exists w :: WellFormed(w) && Render(w) == text && Reading(w) == Some(size)
  {
    if Parse(text) == Some(size) {
      var w := AcceptedIsSpelled(text);
      SpellingRead(w);
    }
    if exists w :: WellFormed(w) && Render(w) == text && Reading(w) == Some(size) {
      var w :| WellFormed(w) && Render(w) == text && Reading(w) == Some(size);
      SpellingRead(w);
    }
  }

  /** Every accepted size is a positive 64-bit number of KiB. */
  lemma AcceptedFits(text: string)
    requires Parse(text).Some?
    ensures 0 < Parse(text).value <= 9223372036854775807
  {
    var w := AcceptedIsSpelled(text);
    SpellingRead(w);
  }

  // The parser as it runs

  method TrimSizeSuffix(text: string) returns (rest: string, inBytes: bool)
    ensures (rest, inBytes) == SplitMarker(text)
  {
    var suffixes := ["ib", "i", "b"];
    for k := 0 to 3
      invariant |text| > 1 && k >= 1 ==> !EndsFold(text, "ib")
      invariant |text| > 1 && k >= 2 ==> !EndsFold(text, "i")
      invariant |text| > 1 && k >= 3 ==> !EndsFold(text, "b")
    {
      var suffix := suffixes[k];
      if |text| > 1 && EndsFold(text, suffix) {
        return text[..|text| - |suffix|], suffix == "b";
      }
    }
    return text, false;
  }

  method SizeTrimmed(trimmed: string, inBytes: bool) returns (size: Option<int>)
    ensures size == ParseTrimmed(trimmed, inBytes)
  {
    if trimmed == "" {
      return None;
    }
    var multiplier := 1;
    var digits := trimmed;
    var unit := trimmed[|trimmed| - 1];
    match unit {
      case 'K' | 'k' => digits := trimmed[..|trimmed| - 1];
      case 'M' | 'm' => multiplier, digits := 1024, trimmed[..|trimmed| - 1];
      case 'G' | 'g' => multiplier, digits := 1024 * 1024, trimmed[..|trimmed| - 1];
      case 'T' | 't' => multiplier, digits := 1024 * 1024 * 1024, trimmed[..|trimmed| - 1];
      case _ =>
        if unit < '0' || unit > '9' {
          return None;
        }
    }
    assert ParseTrimmed(trimmed, inBytes) == Count(digits, multiplier, inBytes);
    var value := ParseInt(TrimSpace(digits));
    if value.None? || value.value <= 0 {
      return None;
    }
    if value.value > INT64_MAX / multiplier {
      return None;
    }
    if inBytes && multiplier == 1 {
      if value.value % 1024 != 0 {
        return None;
      }
      return Some(value.value / 1024);
    }
    return Some(value.value * multiplier);
  }

  method ParseSize(text: string) returns (size: Option<int>)
    ensures size == Parse(text)
    ensures size.Some? ==> 0 < size.value <= INT64_MAX
  {
    var trimmed, inBytes := TrimSizeSuffix(TrimSpace(text));
    size := SizeTrimmed(trimmed, inBytes);
    if size.Some? {
      AcceptedFits(text);
    }
  }
}
