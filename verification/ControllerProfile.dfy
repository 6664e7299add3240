// The controller profile: reading which device each pad section binds, and
// binding the selected devices into a profile that binds none, in place.
//
// A profile is its list of lines. `base` is the section name without its
// number, "GCPad" or "Wiimote" by build.

module ProfileText {
  const PADS := 4
  const BOM: string := "\U{EF}\U{BB}\U{BF}"

  predicate IsSpace(c: char) { c == ' ' || c == '\t' || c == '\n' || c == '\r' || c == '\U{0B}' || c == '\U{0C}' }

  function TrimLeft(s: string): (r: string)
    ensures r != "" ==> !IsSpace(r[0])
    ensures |r| <= |s|
  {
    if s != "" && IsSpace(s[0]) then TrimLeft(s[1..]) else s
  }

  function TrimRight(s: string): (r: string)
    ensures r <= s
    ensures r != "" ==> !IsSpace(r[|r| - 1])
  {
    if s != "" && IsSpace(s[|s| - 1]) then TrimRight(s[..|s| - 1]) else s
  }

  function Trim(s: string): string { TrimRight(TrimLeft(s)) }

  function ToLower(c: char): char { if 'A' <= c <= 'Z' then ((c as int) - ('A' as int) + ('a' as int)) as char else c }

  predicate EqualsIgnoreCase(a: string, b: string) {
    |a| == |b| && forall i :: 0 <= i < |a| ==> ToLower(a[i]) == ToLower(b[i])
  }

  // Position of the first c, or |s|.
  function Find(s: string, c: char): (i: nat)
    ensures i <= |s| && (i < |s| ==> s[i] == c) && forall j :: 0 <= j < i ==> s[j] != c
  {
    if s == "" then 0 else if s[0] == c then 0 else 1 + Find(s[1..], c)
  }

  function StripBom(line: string, first: bool): string { if first && BOM <= line then line[3..] else line }

  predicate IsHeader(line: string) { line != "" && line[0] == '[' && Find(line, ']') < |line| }

  function PadIndex(base: string, header: string): (i: nat)
    requires IsHeader(header)
    ensures i <= PADS
  {
    var name := header[1..Find(header, ']')];
    if |name| == |base| + 1 && '1' <= name[|base|] <= '4' && EqualsIgnoreCase(name[..|base|], base)
    then (name[|base|] as int) - ('1' as int)
    else PADS
  }

  function StripQuotes(v: string): string {
    if v != "" && v[0] == '"' && v[|v| - 1] == '"' then (if |v| == 1 then "" else v[1..|v| - 1]) else v
  }

  // key = value, if the line has an '='.
  predicate HasKey(line: string) { Find(Trim(line), '=') < |Trim(line)| }

  predicate IsDeviceLine(line: string) {
    HasKey(line) && EqualsIgnoreCase(Trim(Trim(line)[..Find(Trim(line), '=')]), "Device")
  }

  function DeviceValue(line: string): string
    requires IsDeviceLine(line)
  {
    StripQuotes(Trim(Trim(line)[Find(Trim(line), '=') + 1..]))
  }

  // What a requested name reads back as.
  function Normal(name: string): string { StripQuotes(Trim(name)) }

  function DeviceLine(name: string): string { "Device = " + name }

  lemma {:induction false} TrimRightAppend(a: string, b: string)
    requires TrimRight(b) != ""
    ensures TrimRight(a + b) == a + TrimRight(b)
    decreases |b|
  {
    if IsSpace(b[|b| - 1]) {
      assert (a + b)[..|a + b| - 1] == a + b[..|b| - 1];
      TrimRightAppend(a, b[..|b| - 1]);
    }
  }

  lemma {:induction false} TrimRightBlank(a: string, b: string)
    requires TrimRight(b) == ""
    ensures TrimRight(a + b) == TrimRight(a)
    decreases |b|
  {
    if b == "" {
      assert a + b == a;
    } else {
      assert (a + b)[..|a + b| - 1] == a + b[..|b| - 1];
      TrimRightBlank(a, b[..|b| - 1]);
    }
  }

  // Both orders of trimming agree.
  lemma {:induction false} TrimCommutes(s: string)
    ensures TrimLeft(TrimRight(s)) == Trim(s)
    decreases |s|
  {
    if s != "" && IsSpace(s[0]) {
      assert s == s[..1] + s[1..];
      TrimCommutes(s[1..]);
      if TrimRight(s[1..]) == "" {
        TrimRightBlank(s[..1], s[1..]);
        assert TrimRight(s[..1]) == "" by { assert s[..1][..0] == ""; }
      } else {
        TrimRightAppend(s[..1], s[1..]);
        assert (s[..1] + TrimRight(s[1..]))[1..] == TrimRight(s[1..]);
      }
    }
  }

  lemma {:induction false} TrimTwice(s: string)
    ensures Trim(TrimRight(s)) == Trim(s)
  {
    TrimCommutes(s);
    assert TrimRight(TrimRight(s)) == TrimRight(s);
    TrimCommutes(TrimRight(s));
  }

  lemma DeviceKeyTrims()
    ensures Trim("Device ") == "Device" && EqualsIgnoreCase("Device", "Device")
  {
    var k := "Device ";
    assert k[0] == 'D' && k[6] == ' ' && k[5] == 'e';
    assert k[..6] == "Device";
  }

  lemma FindDeviceKey(t: string)
    requires |t| >= 8 && t[..8] == "Device ="
    ensures Find(t, '=') == 7 && EqualsIgnoreCase(Trim(t[..7]), "Device")
  {
    var k := "Device =";
    assert k[7] == '=' && forall j :: 0 <= j < 7 ==> k[j] != '=';
    forall j | 0 <= j < 8 ensures t[j] == k[j] { assert t[..8][j] == t[j]; }
    assert t[7] == '=';
    assert t[..7] == k[..7] == "Device ";
    DeviceKeyTrims();
  }

  lemma TrimDeviceLine(name: string)
    ensures var t := Trim(DeviceLine(name));
      |t| >= 8 && t[..8] == "Device =" && Trim(t[8..]) == Trim(name)
  {
    var line := DeviceLine(name);
    assert line[0] == 'D' && TrimLeft(line) == line;
    var cut := TrimRight(name);
    TrimTwice(name);
    if cut == "" {
      TrimRightBlank("Device = ", name);
      assert TrimRight("Device = ") == "Device =" by { assert "Device = "[..8] == "Device ="; }
      assert Trim(line)[8..] == "";
    } else {
      TrimRightAppend("Device = ", name);
      var t := "Device = " + cut;
      assert Trim(line) == t && t[..8] == "Device =" && t[8..] == " " + cut;
      assert (" " + cut)[1..] == cut;
    }
  }

  // The line that is written binds the trimmed, unquoted name.
  lemma DeviceLineReadsBack(name: string)
    ensures !IsHeader(DeviceLine(name)) && IsDeviceLine(DeviceLine(name))
    ensures DeviceValue(DeviceLine(name)) == Normal(name)
  {
    assert DeviceLine(name)[0] == 'D';
    TrimDeviceLine(name);
    FindDeviceKey(Trim(DeviceLine(name)));
  }

  // The section header that is written for pad i.
  function HeaderLine(base: string, i: nat): string
    requires i < PADS
  {
    "[" + base + [(('1' as int) + i) as char] + "]"
  }

  lemma HeaderLineReadsBack(base: string, i: nat)
    requires i < PADS && ']' !in base
    ensures IsHeader(HeaderLine(base, i)) && PadIndex(base, HeaderLine(base, i)) == i
    ensures !(BOM <= HeaderLine(base, i))
  {
    var h := HeaderLine(base, i);
    assert forall j :: 0 <= j < |base| ==> h[1 + j] == base[j];
    assert h[|base| + 2] == ']' && h[0] == '[';
    assert Find(h, ']') == |base| + 2;
    assert h[1..|base| + 2][..|base|] == base;
  }

  predicate CountsAsControl(view: string) { HasKey(view) && !(";" <= Trim(view)) }

  // A comment never reads as a Device line.
  lemma DeviceLineCounts(view: string)
    requires IsDeviceLine(view)
    ensures CountsAsControl(view)
  {
    var t := Trim(view);
    var key := t[..Find(t, '=')];
    assert "Device"[0] == 'D';
    assert ToLower(Trim(key)[0]) == 'd';
    TrimLeftKeepsHead(key);
  }

  lemma TrimLeftKeepsHead(key: string)
    ensures Trim(key) != "" && !IsSpace(key[0]) ==> Trim(key)[0] == key[0]
  {}

  // What a line is to the passes below.
  datatype Meaning = Header(pad: nat) | Device(value: string) | Control | Other

  function Classify(base: string, view: string): (m: Meaning)
    ensures m.Header? ==> m.pad <= PADS
  {
    if IsHeader(view) then Header(PadIndex(base, view))
    else if IsDeviceLine(view) then Device(DeviceValue(view))
    else if CountsAsControl(view) then Control
    else Other
  }

  // How lines are understood: the line, and whether it is the file's first.
  type Meaner = (string, bool) -> Meaning

  function MeanerOf(base: string): Meaner { (line: string, first: bool) => Classify(base, StripBom(line, first)) }

  type Mappings = string -> seq<string>

  // The lines that a merge adds mean what they should.
  ghost predicate Understands(mean: Meaner, base: string, m: Mappings) {
    && (forall name: string :: mean(DeviceLine(name), false) == Device(Normal(name)))
    && (forall i: nat, first: bool :: i < PADS ==> mean(HeaderLine(base, i), first) == Header(i))
    && (forall d: string, k: nat :: k < |m(d)| ==> mean(m(d)[k], false) == Control)
  }

  // Standard mappings are key = expression lines of controls.
  ghost predicate PlainMappings(base: string, m: Mappings) {
    forall d: string, k: nat :: k < |m(d)| ==> Classify(base, m(d)[k]) == Control
  }

  lemma AddedLinesAreUnderstood(base: string, m: Mappings)
    requires ']' !in base && PlainMappings(base, m)
    ensures Understands(MeanerOf(base), base, m)
  {
    forall name: string ensures MeanerOf(base)(DeviceLine(name), false) == Device(Normal(name)) {
      DeviceLineReadsBack(name);
    }
    forall i: nat, first: bool | i < PADS ensures MeanerOf(base)(HeaderLine(base, i), first) == Header(i) {
      HeaderLineReadsBack(base, i);
    }
  }
}

module ProfileMerge {
  import opened ProfileText
  import opened Sequences

  // --- Reading ------------------------------------------------------------

  // The section being read (PADS and above: none of a pad) and the device
  // bound to each pad so far.
  datatype Reader = Reader(section: nat, devices: seq<string>)

  const NO_DEVICES: seq<string> := ["", "", "", ""]

  function ReadStep(r: Reader, m: Meaning): (r': Reader)
    requires |r.devices| == PADS
    ensures |r'.devices| == PADS
  {
    match m
    case Header(pad) => r.(section := pad)
    case Device(value) => if r.section < PADS && value != "" then r.(devices := r.devices[r.section := value]) else r
    case _ => r
  }

  function Read(mean: Meaner, lines: seq<string>): (r: Reader)
    ensures |r.devices| == PADS
  {
    if lines == [] then Reader(PADS, NO_DEVICES)
    else ReadStep(Read(mean, lines[..|lines| - 1]), mean(lines[|lines| - 1], |lines| == 1))
  }

  function NonEmpty(s: seq<string>): seq<string> {
    if s == [] then [] else (if s[0] == "" then [] else [s[0]]) + NonEmpty(s[1..])
  }

  // ReadConfiguredControllers
  function Controllers(mean: Meaner, lines: seq<string>): seq<string> { NonEmpty(Read(mean, lines).devices) }

  // --- Merging ------------------------------------------------------------

  // A line of the merged profile: one of the original lines, or an added one.
  datatype Line = Original(text: string) | Added(text: string)

  function Texts(ls: seq<Line>): (r: seq<string>)
    ensures |r| == |ls|
  {
    seq(|ls|, i requires 0 <= i < |ls| => ls[i].text)
  }

  function AddAll(ls: seq<string>): (r: seq<Line>)
    ensures |r| == |ls|
  {
    seq(|ls|, i requires 0 <= i < |ls| => Added(ls[i]))
  }

  function Originals(ls: seq<Line>): seq<string> {
    if ls == [] then []
    else Originals(ls[..|ls| - 1]) + (if ls[|ls| - 1].Original? then [ls[|ls| - 1].text] else [])
  }

  // The read pass: the section, and per pad whether it was seen, bound, and
  // found to carry controls.
  datatype Scan = Scan(section: nat, seen: seq<bool>, bound: seq<bool>, controls: seq<bool>, out: seq<Line>)

  const UNMARKED: seq<bool> := [false, false, false, false]

  predicate ScanOk(s: Scan) { |s.seen| == |s.bound| == |s.controls| == PADS }

  // Does the header of this pad get a Device line of its own?
  predicate Binds(wanted: seq<string>, s: Scan, pad: nat)
    requires ScanOk(s)
  {
    pad < |wanted| && pad < PADS && !s.bound[pad]
  }

  function Marked(flags: seq<bool>, i: nat): (r: seq<bool>)
    ensures |r| == |flags|
  {
    if i < |flags| then flags[i := true] else flags
  }

  function ScanStep(wanted: seq<string>, s: Scan, line: string, m: Meaning): (s': Scan)
    requires ScanOk(s)
    ensures ScanOk(s')
  {
    match m
    case Header(pad) =>
      if Binds(wanted, s, pad) then
        Scan(pad, Marked(s.seen, pad), Marked(s.bound, pad), s.controls,
             s.out + [Original(line), Added(DeviceLine(wanted[pad]))])
      else Scan(pad, Marked(s.seen, pad), s.bound, s.controls, s.out + [Original(line)])
    case Device(_) =>
      if s.section < PADS && s.bound[s.section] then s
      else s.(controls := Marked(s.controls, s.section), out := s.out + [Original(line)])
    case Control => s.(controls := Marked(s.controls, s.section), out := s.out + [Original(line)])
    case Other => s.(out := s.out + [Original(line)])
  }

  function ScanAll(mean: Meaner, wanted: seq<string>, lines: seq<string>): (s: Scan)
    ensures ScanOk(s)
  {
    if lines == [] then Scan(PADS, UNMARKED, UNMARKED, UNMARKED, [])
    else
      ScanStep(wanted, ScanAll(mean, wanted, lines[..|lines| - 1]), lines[|lines| - 1],
               mean(lines[|lines| - 1], |lines| == 1))
  }

  // What closing a section splices in: the standard mappings of a pad that
  // was bound but carries no controls.
  function Closing(wanted: seq<string>, m: Mappings, s: Scan, open: nat): seq<Line>
    requires ScanOk(s)
  {
    if open < PADS && open < |wanted| && s.bound[open] && !s.controls[open] then AddAll(m(wanted[open])) else []
  }

  datatype Splice = Splice(open: nat, out: seq<Line>)

  // The splice pass over the lines kept by the read pass.
  function SpliceAll(mean: Meaner, wanted: seq<string>, m: Mappings, s: Scan, ls: seq<Line>): Splice
    requires ScanOk(s)
  {
    if ls == [] then Splice(PADS, [])
    else
      var r := SpliceAll(mean, wanted, m, s, ls[..|ls| - 1]);
      var line := ls[|ls| - 1];
      var meaning := mean(line.text, |ls| == 1);
      if meaning.Header? then Splice(meaning.pad, r.out + Closing(wanted, m, s, r.open) + [line])
      else Splice(r.open, r.out + [line])
  }

  // A pad section written whole; an empty device leaves a bare header.
  function PadSection(base: string, wanted: seq<string>, m: Mappings, i: nat): seq<Line>
    requires i < PADS
  {
    [Added(HeaderLine(base, i))] +
    (if i < |wanted| && wanted[i] != "" then [Added(DeviceLine(wanted[i]))] + AddAll(m(wanted[i])) else [])
  }

  function OneMissing(base: string, wanted: seq<string>, m: Mappings, seen: seq<bool>, n: nat): seq<Line>
    requires |seen| == PADS && n < PADS
  {
    if seen[n] then [] else PadSection(base, wanted, m, n)
  }

  // The sections of the first n pads that the file did not have.
  function Missing(base: string, wanted: seq<string>, m: Mappings, seen: seq<bool>, n: nat): seq<Line>
    requires |seen| == PADS && n <= PADS
  {
    if n == 0 then []
    else Missing(base, wanted, m, seen, n - 1) + OneMissing(base, wanted, m, seen, n - 1)
  }

  // EnsureControllerConfig on a profile that exists and binds nothing.
  function Merged(mean: Meaner, base: string, wanted: seq<string>, m: Mappings, lines: seq<string>): seq<Line> {
    var s := ScanAll(mean, wanted, lines);
    var r := SpliceAll(mean, wanted, m, s, s.out);
    r.out + Closing(wanted, m, s, r.open) + Missing(base, wanted, m, s.seen, PADS)
  }

  // --- Reading what was merged --------------------------------------------

  lemma ReadSnoc(mean: Meaner, lines: seq<string>, line: string)
    ensures Read(mean, lines + [line]) == ReadStep(Read(mean, lines), mean(line, lines == []))
  {
    assert (lines + [line])[..|lines|] == lines;
  }

  lemma ReadAdded(mean: Meaner, ls: seq<Line>, line: Line)
    ensures Read(mean, Texts(ls + [line])) == ReadStep(Read(mean, Texts(ls)), mean(line.text, ls == []))
  {
    assert Texts(ls + [line]) == Texts(ls) + [line.text];
    ReadSnoc(mean, Texts(ls), line.text);
  }

  // The standard mappings change nothing, in whatever section they stand.
  lemma {:induction false} ReadBody(mean: Meaner, ls: seq<Line>, body: seq<string>)
    requires ls != [] && forall k :: 0 <= k < |body| ==> mean(body[k], false) == Control
    ensures Read(mean, Texts(ls + AddAll(body))) == Read(mean, Texts(ls))
  {
    if body == [] {
      assert ls + AddAll(body) == ls;
    } else {
      var init := body[..|body| - 1];
      ReadBody(mean, ls, init);
      assert ls + AddAll(body) == (ls + AddAll(init)) + [Added(body[|body| - 1])];
      ReadAdded(mean, ls + AddAll(init), Added(body[|body| - 1]));
    }
  }

  // The devices a merge leaves bound: the wanted ones whose pad is marked.
  function Expected(wanted: seq<string>, marked: seq<bool>): (d: seq<string>)
    requires |marked| == PADS
    ensures |d| == PADS
  {
    seq(PADS, i requires 0 <= i < PADS => if marked[i] && i < |wanted| then Normal(wanted[i]) else "")
  }

  // In a profile that binds nothing, no prefix binds anything.
  lemma InitBindsNothing(mean: Meaner, init: seq<string>, line: string)
    requires Read(mean, init + [line]).devices == NO_DEVICES
    ensures Read(mean, init).devices == NO_DEVICES
  {
    ReadSnoc(mean, init, line);
    var r, r' := Read(mean, init), Read(mean, init + [line]);
    forall i | 0 <= i < PADS ensures r.devices[i] == NO_DEVICES[i] { assert r'.devices[i] == ""; }
  }

  lemma NonEmptyOfNothing(d: seq<string>)
    requires |d| == PADS && NonEmpty(d) == []
    ensures d == NO_DEVICES
  {
    assert NonEmpty(d[1..]) == [] && NonEmpty(d[1..][1..]) == [] && NonEmpty(d[1..][1..][1..]) == [];
    assert d[1] == d[1..][0] && d[2] == d[1..][1..][0] && d[3] == d[1..][1..][1..][0];
  }

  // The flags of a scan over a profile that binds nothing, and what its lines
  // read as so far.
  ghost predicate ScanReads(wanted: seq<string>, s: Scan, read: Reader) {
    && ScanOk(s)
    && read == Reader(s.section, Expected(wanted, s.bound))
    && (forall i :: 0 <= i < PADS ==> s.bound[i] == (s.seen[i] && i < |wanted|))
    && (s.section < PADS ==> s.seen[s.section])
  }

  // Reading the lines that a scan step appended.
  function ReadAppended(wanted: seq<string>, s: Scan, r: Reader, m: Meaning): Reader
    requires ScanOk(s) && |r.devices| == PADS
  {
    match m
    case Header(pad) =>
      if Binds(wanted, s, pad) then ReadStep(ReadStep(r, m), Device(Normal(wanted[pad]))) else ReadStep(r, m)
    case Device(_) => if s.section < PADS && s.bound[s.section] then r else ReadStep(r, m)
    case _ => ReadStep(r, m)
  }

  lemma StepReads(wanted: seq<string>, s: Scan, r: Reader, line: string, m: Meaning)
    requires ScanReads(wanted, s, r)
    requires m.Device? && s.section < PADS ==> m.value == ""
    ensures ScanReads(wanted, ScanStep(wanted, s, line, m), ReadAppended(wanted, s, r, m))
  {
    var s' := ScanStep(wanted, s, line, m);
    var r' := ReadAppended(wanted, s, r, m);
    assert r'.devices == Expected(wanted, s'.bound);
  }

  lemma AppendedIsRead(mean: Meaner, base: string, mp: Mappings, wanted: seq<string>, s: Scan, line: string, m: Meaning)
    requires ScanOk(s) && Understands(mean, base, mp) && m == mean(line, s.out == [])
    ensures Read(mean, Texts(ScanStep(wanted, s, line, m).out)) == ReadAppended(wanted, s, Read(mean, Texts(s.out)), m)
  {
    var with := s.out + [Original(line)];
    ReadAdded(mean, s.out, Original(line));
    if m.Header? && Binds(wanted, s, m.pad) {
      var added := Added(DeviceLine(wanted[m.pad]));
      assert s.out + [Original(line), added] == with + [added];
      ReadAdded(mean, with, added);
    }
  }

  lemma {:induction false} ScanAllReads(mean: Meaner, base: string, mp: Mappings, wanted: seq<string>,
                                        lines: seq<string>)
    requires Read(mean, lines).devices == NO_DEVICES && Understands(mean, base, mp)
    ensures var s := ScanAll(mean, wanted, lines);
      && ScanReads(wanted, s, Read(mean, Texts(s.out)))
      && Read(mean, lines).section == s.section && (lines == [] <==> s.out == [])
  {
    if lines == [] {
      assert Expected(wanted, UNMARKED) == NO_DEVICES;
    } else {
      var init, line := lines[..|lines| - 1], lines[|lines| - 1];
      assert lines == init + [line];
      InitBindsNothing(mean, init, line);
      ReadSnoc(mean, init, line);
      ScanAllReads(mean, base, mp, wanted, init);
      var s, m := ScanAll(mean, wanted, init), mean(line, init == []);
      if m.Device? && s.section < PADS {
        assert Read(mean, lines).devices[s.section] == NO_DEVICES[s.section] == "";
      }
      StepReads(wanted, s, Read(mean, Texts(s.out)), line, m);
      AppendedIsRead(mean, base, mp, wanted, s, line, m);
      hide Understands;
      hide ScanReads;
      hide Read;
      hide ReadAppended;
    }
  }

  lemma ReadClosing(mean: Meaner, base: string, mp: Mappings, wanted: seq<string>, s: Scan, ls: seq<Line>, open: nat)
    requires ScanOk(s) && Understands(mean, base, mp) && (ls == [] ==> open >= PADS)
    ensures Read(mean, Texts(ls + Closing(wanted, mp, s, open))) == Read(mean, Texts(ls))
  {
    if Closing(wanted, mp, s, open) == [] {
      assert ls + [] == ls;
    } else {
      ReadBody(mean, ls, mp(wanted[open]));
    }
  }

  // Splicing in standard mappings leaves every device as it was read.
  lemma {:induction false} SpliceReads(mean: Meaner, base: string, mp: Mappings, wanted: seq<string>, s: Scan,
                                       ls: seq<Line>)
    requires ScanOk(s) && Understands(mean, base, mp)
    ensures var r := SpliceAll(mean, wanted, mp, s, ls);
      && Read(mean, Texts(r.out)) == Read(mean, Texts(ls)) && (r.out == [] <==> ls == [])
      && (r.out == [] ==> r.open >= PADS)
  {
    if ls != [] {
      var init, line := ls[..|ls| - 1], ls[|ls| - 1];
      assert ls == init + [line];
      SpliceReads(mean, base, mp, wanted, s, init);
      ReadAdded(mean, init, line);
      var r := SpliceAll(mean, wanted, mp, s, init);
      ReadClosing(mean, base, mp, wanted, s, r.out, r.open);
      var with := r.out + Closing(wanted, mp, s, r.open);
      ReadAdded(mean, with, line);
      ReadAdded(mean, r.out, line);
    }
  }

  lemma ReadPadSection(mean: Meaner, base: string, mp: Mappings, wanted: seq<string>, ls: seq<Line>, i: nat)
    requires i < PADS && Understands(mean, base, mp)
    requires i < |wanted| ==> wanted[i] != ""
    ensures var r := Read(mean, Texts(ls));
      Read(mean, Texts(ls + PadSection(base, wanted, mp, i)))
        == ReadStep(Reader(i, r.devices), if i < |wanted| then Device(Normal(wanted[i])) else Other)
  {
    var head := Added(HeaderLine(base, i));
    ReadAdded(mean, ls, head);
    if i < |wanted| {
      var with := ls + [head];
      var dev := Added(DeviceLine(wanted[i]));
      ReadAdded(mean, with, dev);
      ReadBody(mean, with + [dev], mp(wanted[i]));
      assert ls + PadSection(base, wanted, mp, i) == (with + [dev]) + AddAll(mp(wanted[i]));
    } else {
      assert ls + PadSection(base, wanted, mp, i) == ls + [head];
    }
  }

  // Marks of the pads that are bound after the first n missing ones are added.
  function Completed(seen: seq<bool>, n: nat): (r: seq<bool>)
    requires |seen| == PADS
    ensures |r| == PADS
  {
    seq(PADS, i requires 0 <= i < PADS => seen[i] || i < n)
  }

  lemma CompletedNext(wanted: seq<string>, seen: seq<bool>, n: nat, r: Reader)
    requires |seen| == PADS && n < PADS && !seen[n] && r == Reader(n, Expected(wanted, Completed(seen, n)))
    ensures ReadStep(r, if n < |wanted| then Device(Normal(wanted[n])) else Other).devices
         == Expected(wanted, Completed(seen, n + 1))
  {
    var d := Expected(wanted, Completed(seen, n));
    assert Expected(wanted, Completed(seen, n + 1)) == if n < |wanted| then d[n := Normal(wanted[n])] else d;
    assert d[n] == "";
  }

  lemma OneMissingReads(mean: Meaner, base: string, mp: Mappings, wanted: seq<string>, ls: seq<Line>, seen: seq<bool>,
                        n: nat)
    requires |seen| == PADS && n < PADS && Understands(mean, base, mp)
    requires n < |wanted| ==> wanted[n] != ""
    requires Read(mean, Texts(ls)).devices == Expected(wanted, Completed(seen, n))
    ensures Read(mean, Texts(ls + OneMissing(base, wanted, mp, seen, n))).devices
         == Expected(wanted, Completed(seen, n + 1))
  {
    if seen[n] {
      assert ls + OneMissing(base, wanted, mp, seen, n) == ls;
      assert Completed(seen, n + 1) == Completed(seen, n);
    } else {
      ReadPadSection(mean, base, mp, wanted, ls, n);
      CompletedNext(wanted, seen, n, Reader(n, Expected(wanted, Completed(seen, n))));
    }
  }

  lemma {:induction false} MissingReads(mean: Meaner, base: string, mp: Mappings, wanted: seq<string>, ls: seq<Line>,
                                        seen: seq<bool>, n: nat)
    requires |seen| == PADS && n <= PADS && Understands(mean, base, mp)
    requires forall i :: 0 <= i < |wanted| ==> wanted[i] != ""
    requires Read(mean, Texts(ls)).devices == Expected(wanted, seen)
    ensures Read(mean, Texts(ls + Missing(base, wanted, mp, seen, n))).devices == Expected(wanted, Completed(seen, n))
  {
    hide Understands;
    hide Read;
    hide Texts;
    hide Expected;
    hide OneMissing;
    if n == 0 {
      assert ls + [] == ls && Completed(seen, 0) == seen;
    } else {
      MissingReads(mean, base, mp, wanted, ls, seen, n - 1);
      var with := ls + Missing(base, wanted, mp, seen, n - 1);
      OneMissingReads(mean, base, mp, wanted, with, seen, n - 1);
      Assoc(ls, Missing(base, wanted, mp, seen, n - 1), OneMissing(base, wanted, mp, seen, n - 1));
    }
  }

  function Normals(wanted: seq<string>): (r: seq<string>)
    ensures |r| == |wanted|
  {
    seq(|wanted|, i requires 0 <= i < |wanted| => Normal(wanted[i]))
  }

  lemma ExpectedOfSeen(wanted: seq<string>, s: Scan)
    requires ScanOk(s) && forall i :: 0 <= i < PADS ==> s.bound[i] == (s.seen[i] && i < |wanted|)
    ensures Expected(wanted, s.bound) == Expected(wanted, s.seen)
  {}

  lemma ExpectedOfAll(wanted: seq<string>, seen: seq<bool>)
    requires |seen| == PADS && |wanted| <= PADS
    ensures Expected(wanted, Completed(seen, PADS)) == Normals(wanted) + NO_DEVICES[|wanted|..]
  {}

  // The merged profile binds the requested devices, pad by pad, and no other.
  lemma MergedBindsWanted(mean: Meaner, base: string, mp: Mappings, wanted: seq<string>, lines: seq<string>)
    requires Understands(mean, base, mp) && Controllers(mean, lines) == []
    requires 1 <= |wanted| <= PADS && forall i :: 0 <= i < |wanted| ==> wanted[i] != ""
    ensures Read(mean, Texts(Merged(mean, base, wanted, mp, lines))).devices == Normals(wanted) + NO_DEVICES[|wanted|..]
  {
    NonEmptyOfNothing(Read(mean, lines).devices);
    hide Read;
    hide Texts;
    hide SpliceAll;
    hide ScanAll;
    hide Understands;
    hide Missing;
    hide Closing;
    hide Expected;
    hide Completed;
    hide Normals;
    var s := ScanAll(mean, wanted, lines);
    ScanAllReads(mean, base, mp, wanted, lines);
    var r := SpliceAll(mean, wanted, mp, s, s.out);
    SpliceReads(mean, base, mp, wanted, s, s.out);
    ReadClosing(mean, base, mp, wanted, s, r.out, r.open);
    var with := r.out + Closing(wanted, mp, s, r.open);
    ExpectedOfSeen(wanted, s);
    MissingReads(mean, base, mp, wanted, with, s.seen, PADS);
    ExpectedOfAll(wanted, s.seen);
  }

  lemma {:induction false} NonEmptyPadding(a: seq<string>, k: nat)
    requires k <= PADS
    ensures NonEmpty(a + NO_DEVICES[k..]) == NonEmpty(a)
    decreases |a|, PADS - k
  {
    if a == [] {
      assert a + NO_DEVICES[k..] == NO_DEVICES[k..];
      if k < PADS {
        assert NO_DEVICES[k..][1..] == NO_DEVICES[k + 1..];
        NonEmptyPadding(a, k + 1);
        assert a + NO_DEVICES[k + 1..] == NO_DEVICES[k + 1..];
      }
    } else {
      assert (a + NO_DEVICES[k..])[1..] == a[1..] + NO_DEVICES[k..];
      NonEmptyPadding(a[1..], k);
    }
  }

  lemma {:induction false} NonEmptyShrinks(a: seq<string>)
    ensures |NonEmpty(a)| <= |a| && (|NonEmpty(a)| == |a| ==> NonEmpty(a) == a)
  {
    if a != [] { NonEmptyShrinks(a[1..]); }
  }

  // Reading the merged profile gives the requested list, trimmed and
  // unquoted; and it gives the list itself exactly when the names were that
  // already.
  lemma MergedReadsBack(mean: Meaner, base: string, mp: Mappings, wanted: seq<string>, lines: seq<string>)
    requires Understands(mean, base, mp) && Controllers(mean, lines) == []
    requires 1 <= |wanted| <= PADS && forall i :: 0 <= i < |wanted| ==> wanted[i] != ""
    ensures var read := Controllers(mean, Texts(Merged(mean, base, wanted, mp, lines)));
      && read == NonEmpty(Normals(wanted))
      && (read == wanted <==> forall i :: 0 <= i < |wanted| ==> Normal(wanted[i]) == wanted[i])
  {
    MergedBindsWanted(mean, base, mp, wanted, lines);
    NonEmptyPadding(Normals(wanted), |wanted|);
    hide Merged;
    hide Read;
    hide Texts;
    hide NonEmpty;
    hide Normals;
    NamesSurviveIff(wanted);
  }

  lemma NamesSurviveIff(wanted: seq<string>)
    requires forall i :: 0 <= i < |wanted| ==> wanted[i] != ""
    ensures NonEmpty(Normals(wanted)) == wanted <==> forall i :: 0 <= i < |wanted| ==> Normal(wanted[i]) == wanted[i]
  {
    hide NonEmpty;
    NonEmptyShrinks(Normals(wanted));
    if NonEmpty(Normals(wanted)) == wanted {
      forall i | 0 <= i < |wanted| ensures Normal(wanted[i]) == wanted[i] { assert Normals(wanted)[i] == wanted[i]; }
    } else if forall i :: 0 <= i < |wanted| ==> Normal(wanted[i]) == wanted[i] {
      assert Normals(wanted) == wanted;
      NoneEmpty(wanted);
    }
  }

  lemma {:induction false} NoneEmpty(a: seq<string>)
    requires forall i :: 0 <= i < |a| ==> a[i] != ""
    ensures NonEmpty(a) == a
  {
    if a != [] {
      NoneEmpty(a[1..]);
      assert [a[0]] + a[1..] == a;
    }
  }

  // --- A profile written from nothing ---------------------------------------

  const BALANCE_BOARD := "[BalanceBoard]"

  // All four sections; a Wii Remote profile ends with the balance board's.
  function Fresh(base: string, wanted: seq<string>, mp: Mappings, wiimote: bool): seq<Line> {
    Missing(base, wanted, mp, UNMARKED, PADS) + (if wiimote then [Added(BALANCE_BOARD)] else [])
  }

  lemma MergeOfNothing(mean: Meaner, base: string, mp: Mappings, wanted: seq<string>)
    ensures Merged(mean, base, wanted, mp, []) == Missing(base, wanted, mp, UNMARKED, PADS)
    ensures Controllers(mean, []) == []
  {
    var d := NO_DEVICES;
    assert d[1..][1..] == d[2..] && d[2..][1..] == d[3..] && d[3..][1..] == d[4..] == [];
  }

  // A new profile reads back like a merged one: the balance board's section
  // binds nothing.
  lemma FreshReadsBack(base: string, mp: Mappings, wanted: seq<string>, wiimote: bool)
    requires Understands(MeanerOf(base), base, mp)
    requires 1 <= |wanted| <= PADS && forall i :: 0 <= i < |wanted| ==> wanted[i] != ""
    ensures var read := Controllers(MeanerOf(base), Texts(Fresh(base, wanted, mp, wiimote)));
      && read == NonEmpty(Normals(wanted))
      && (read == wanted <==> forall i :: 0 <= i < |wanted| ==> Normal(wanted[i]) == wanted[i])
  {
    hide *;
    var mean := MeanerOf(base);
    MergeOfNothing(mean, base, mp, wanted);
    MergedReadsBack(mean, base, mp, wanted, []);
    FreshReadsAsSections(base, mp, wanted, wiimote);
  }

  lemma FreshReadsAsSections(base: string, mp: Mappings, wanted: seq<string>, wiimote: bool)
    ensures Controllers(MeanerOf(base), Texts(Fresh(base, wanted, mp, wiimote)))
         == Controllers(MeanerOf(base), Texts(Missing(base, wanted, mp, UNMARKED, PADS)))
  {
    hide Read;
    hide Missing;
    hide Classify;
    var sections := Missing(base, wanted, mp, UNMARKED, PADS);
    if wiimote {
      ReadAdded(MeanerOf(base), sections, Added(BALANCE_BOARD));
      BalanceBoardIsHeader(base);
    } else {
      assert Fresh(base, wanted, mp, wiimote) == sections;
    }
  }

  lemma BalanceBoardIsHeader(base: string)
    ensures forall first :: MeanerOf(base)(BALANCE_BOARD, first).Header?
  {
    assert BALANCE_BOARD[13] == ']' && IsHeader(BALANCE_BOARD);
    assert BALANCE_BOARD[0] != BOM[0];
  }

  // --- What becomes of the original lines ---------------------------------

  // Every original line, in order, but for the Device lines of pads that the
  // merge binds.
  function KeptLines(mean: Meaner, wanted: seq<string>, lines: seq<string>): seq<string> {
    if lines == [] then []
    else
      var init, line := lines[..|lines| - 1], lines[|lines| - 1];
      var section := Read(mean, init).section;
      var dropped := section < PADS && section < |wanted| && mean(line, |lines| == 1).Device?;
      KeptLines(mean, wanted, init) + (if dropped then [] else [line])
  }

  lemma {:induction false} OriginalsAppend(a: seq<Line>, b: seq<Line>)
    ensures Originals(a + b) == Originals(a) + Originals(b)
  {
    if b == [] {
      assert a + b == a;
    } else {
      assert (a + b)[..|a + b| - 1] == a + b[..|b| - 1];
      OriginalsAppend(a, b[..|b| - 1]);
    }
  }

  lemma {:induction false} AddedHasNoOriginals(a: seq<Line>)
    requires forall i :: 0 <= i < |a| ==> a[i].Added?
    ensures Originals(a) == []
  {
    if a != [] { AddedHasNoOriginals(a[..|a| - 1]); }
  }

  lemma OneOriginal(line: string)
    ensures Originals([Original(line)]) == [line]
  {
    assert [Original(line)][..0] == [];
  }

  lemma StepKeeps(wanted: seq<string>, s: Scan, line: string, m: Meaning)
    requires ScanOk(s)
    ensures Originals(ScanStep(wanted, s, line, m).out) ==
      Originals(s.out) + (if m.Device? && s.section < PADS && s.bound[s.section] then [] else [line])
  {
    OneOriginal(line);
    OriginalsAppend(s.out, [Original(line)]);
    if m.Header? && Binds(wanted, s, m.pad) {
      var added := Added(DeviceLine(wanted[m.pad]));
      assert [Original(line)] + [added] == [Original(line), added];
      Assoc(s.out, [Original(line)], [added]);
      OriginalsAppend(s.out + [Original(line)], [added]);
      AddedHasNoOriginals([added]);
    }
  }

  lemma {:induction false} ScanKeeps(mean: Meaner, base: string, mp: Mappings, wanted: seq<string>, lines: seq<string>)
    requires Read(mean, lines).devices == NO_DEVICES && Understands(mean, base, mp)
    ensures Originals(ScanAll(mean, wanted, lines).out) == KeptLines(mean, wanted, lines)
  {
    if lines != [] {
      var init, line := lines[..|lines| - 1], lines[|lines| - 1];
      assert lines == init + [line];
      InitBindsNothing(mean, init, line);
      ScanAllReads(mean, base, mp, wanted, init);
      ScanKeeps(mean, base, mp, wanted, init);
      StepKeeps(wanted, ScanAll(mean, wanted, init), line, mean(line, init == []));
      hide Understands;
      hide Read;
      hide Texts;
      hide Expected;
      hide ScanStep;
      hide Originals;
    }
  }

  lemma {:induction false} SpliceKeeps(mean: Meaner, wanted: seq<string>, mp: Mappings, s: Scan, ls: seq<Line>)
    requires ScanOk(s)
    ensures Originals(SpliceAll(mean, wanted, mp, s, ls).out) == Originals(ls)
  {
    if ls != [] {
      var init, line := ls[..|ls| - 1], ls[|ls| - 1];
      assert ls == init + [line];
      SpliceKeeps(mean, wanted, mp, s, init);
      var r := SpliceAll(mean, wanted, mp, s, init);
      AddedHasNoOriginals(Closing(wanted, mp, s, r.open));
      OriginalsAppend(r.out, Closing(wanted, mp, s, r.open));
      OriginalsAppend(r.out + Closing(wanted, mp, s, r.open), [line]);
      OriginalsAppend(r.out, [line]);
      OriginalsAppend(init, [line]);
    }
  }

  lemma {:induction false} MissingIsAdded(base: string, wanted: seq<string>, mp: Mappings, seen: seq<bool>, n: nat)
    requires |seen| == PADS && n <= PADS
    ensures forall i :: 0 <= i < |Missing(base, wanted, mp, seen, n)| ==> Missing(base, wanted, mp, seen, n)[i].Added?
  {
    if n > 0 { MissingIsAdded(base, wanted, mp, seen, n - 1); }
  }

  lemma MergedKeepsLines(mean: Meaner, base: string, mp: Mappings, wanted: seq<string>, lines: seq<string>)
    requires Understands(mean, base, mp) && Controllers(mean, lines) == []
    ensures Originals(Merged(mean, base, wanted, mp, lines)) == KeptLines(mean, wanted, lines)
  {
    NonEmptyOfNothing(Read(mean, lines).devices);
    var s := ScanAll(mean, wanted, lines);
    var r := SpliceAll(mean, wanted, mp, s, s.out);
    ScanKeeps(mean, base, mp, wanted, lines);
    SpliceKeeps(mean, wanted, mp, s, s.out);
    AddedHasNoOriginals(Closing(wanted, mp, s, r.open));
    MissingIsAdded(base, wanted, mp, s.seen, PADS);
    AddedHasNoOriginals(Missing(base, wanted, mp, s.seen, PADS));
    OriginalsAppend(r.out, Closing(wanted, mp, s, r.open));
    OriginalsAppend(r.out + Closing(wanted, mp, s, r.open), Missing(base, wanted, mp, s.seen, PADS));
  }
}

module ControllerProfile {
  import opened Wrappers
  import opened ProfileText
  import opened Sequences
  import opened ProfileMerge

  datatype Outcome = UsingExisting | Invalid | Written(lines: seq<string>)

  predicate ValidControllerList(wanted: seq<string>) {
    && 1 <= |wanted| <= PADS
    && forall i :: 0 <= i < |wanted| ==> wanted[i] != "" && '\r' !in wanted[i] && '\n' !in wanted[i]
  }

  // The list grows to the pad that is bound.
  method BindDevice(controllers: seq<string>, index: nat, device: string) returns (r: seq<string>)
    requires |controllers| <= PADS && index < PADS
    ensures |r| <= PADS && r + NO_DEVICES[|r|..] == (controllers + NO_DEVICES[|controllers|..])[index := device]
  {
    r := controllers;
    while |r| <= index
      invariant |controllers| <= |r| <= PADS
      invariant r + NO_DEVICES[|r|..] == controllers + NO_DEVICES[|controllers|..]
    {
      r := r + [""];
    }
    r := r[index := device];
  }

  // The list read so far, as four pads.
  function Padded(controllers: seq<string>): seq<string>
    requires |controllers| <= PADS
  {
    controllers + NO_DEVICES[|controllers|..]
  }

  lemma PaddedNone()
    ensures Padded([]) == NO_DEVICES
  {}

  lemma PaddedReads(controllers: seq<string>)
    requires |controllers| <= PADS
    ensures NonEmpty(Padded(controllers)) == NonEmpty(controllers)
  {
    NonEmptyPadding(controllers, |controllers|);
  }

  method ReadOne(base: string, section: nat, list: seq<string>, line: string, first: bool)
    returns (index: nat, controllers: seq<string>)
    requires |list| <= PADS
    ensures |controllers| <= PADS
    ensures Reader(index, Padded(controllers)) == ReadStep(Reader(section, Padded(list)), MeanerOf(base)(line, first))
  {
    index, controllers := section, list;
    var view := StripBom(line, first);
    if IsHeader(view) {
      index := PadIndex(base, view);
    } else if index < PADS && IsDeviceLine(view) {
      var device := DeviceValue(view);
      if device != "" { controllers := BindDevice(controllers, index, device); }
    }
  }

  method ReadConfiguredControllers(base: string, lines: seq<string>) returns (controllers: seq<string>)
    ensures controllers == Controllers(MeanerOf(base), lines)
  {
    hide Padded;
    hide Classify;
    ghost var mean := MeanerOf(base);
    PaddedNone();
    controllers := [];
    var index: nat := PADS;
    var k := 0;
    while k < |lines|
      invariant 0 <= k <= |lines| && |controllers| <= PADS
      invariant Read(mean, lines[..k]) == Reader(index, Padded(controllers))
    {
      index, controllers := ReadOne(base, index, controllers, lines[k], k == 0);
      assert lines[..k + 1][..k] == lines[..k];
      k := k + 1;
    }
    assert lines[..k] == lines;
    PaddedReads(controllers);
    controllers := EraseEmpty(controllers);
  }

  method EraseEmpty(s: seq<string>) returns (r: seq<string>)
    ensures r == NonEmpty(s)
  {
    r := [];
    var i := 0;
    while i < |s|
      invariant 0 <= i <= |s| && r + NonEmpty(s[i..]) == NonEmpty(s)
    {
      assert s[i..][1..] == s[i + 1..];
      if s[i] != "" { r := r + [s[i]]; }
      i := i + 1;
    }
  }

  // The read pass, as the loop runs it.
  method ScanPass(base: string, wanted: seq<string>, lines: seq<string>) returns (s: Scan)
    ensures s == ScanAll(MeanerOf(base), wanted, lines)
  {
    ghost var mean := MeanerOf(base);
    var section: nat := PADS;
    var seen, bound, controls, out: seq<Line> := UNMARKED, UNMARKED, UNMARKED, [];
    var k := 0;
    while k < |lines|
      invariant 0 <= k <= |lines| && |seen| == |bound| == |controls| == PADS
      invariant Scan(section, seen, bound, controls, out) == ScanAll(mean, wanted, lines[..k])
    {
      var line := lines[k];
      assert lines[..k + 1][..k] == lines[..k];
      section, seen, bound, controls, out :=
        ScanOne(base, wanted, Scan(section, seen, bound, controls, out), line, k == 0);
      k := k + 1;
    }
    assert lines[..k] == lines;
    s := Scan(section, seen, bound, controls, out);
  }

  method ScanOne(base: string, wanted: seq<string>, s: Scan, line: string, first: bool)
      returns (section: nat, seen: seq<bool>, bound: seq<bool>, controls: seq<bool>, out: seq<Line>)
    requires ScanOk(s)
    ensures Scan(section, seen, bound, controls, out) == ScanStep(wanted, s, line, MeanerOf(base)(line, first))
  {
    hide IsHeader;
    hide IsDeviceLine;
    hide CountsAsControl;
    hide PadIndex;
    section, seen, bound, controls, out := s.section, s.seen, s.bound, s.controls, s.out;
    var view := StripBom(line, first);
    if IsHeader(view) {
      section := PadIndex(base, view);
      if section < PADS { seen := seen[section := true]; }
      out := out + [Original(line)];
      if section < |wanted| && section < PADS && !bound[section] {
        out := out + [Added(DeviceLine(wanted[section]))];
        bound := bound[section := true];
      }
      return;
    }
    if IsDeviceLine(view) { DeviceLineCounts(view); }
    if section < PADS && CountsAsControl(view) {
      if bound[section] && IsDeviceLine(view) { return; }
      controls := controls[section := true];
    }
    out := out + [Original(line)];
  }

  method SpliceOne(base: string, wanted: seq<string>, m: Mappings, s: Scan, last: nat, before: seq<Line>, line: Line,
                   first: bool)
      returns (open: nat, merged: seq<Line>)
    requires ScanOk(s)
    ensures var meaning := MeanerOf(base)(line.text, first);
      Splice(open, merged) ==
        if meaning.Header? then Splice(meaning.pad, before + Closing(wanted, m, s, last) + [line])
        else Splice(last, before + [line])
  {
    hide Closing;
    open, merged := last, before;
    var view := StripBom(line.text, first);
    if IsHeader(view) {
      merged := merged + Closing(wanted, m, s, open);
      open := PadIndex(base, view);
    }
    merged := merged + [line];
  }

  method SplicePass(base: string, wanted: seq<string>, m: Mappings, s: Scan) returns (merged: seq<Line>)
    requires ScanOk(s)
    ensures var r := SpliceAll(MeanerOf(base), wanted, m, s, s.out); merged == r.out + Closing(wanted, m, s, r.open)
  {
    hide Classify;
    ghost var mean := MeanerOf(base);
    merged := [];
    var open: nat := PADS;
    var k := 0;
    while k < |s.out|
      invariant 0 <= k <= |s.out|
      invariant SpliceAll(mean, wanted, m, s, s.out[..k]) == Splice(open, merged)
    {
      assert s.out[..k + 1][..k] == s.out[..k];
      open, merged := SpliceOne(base, wanted, m, s, open, merged, s.out[k], k == 0);
      k := k + 1;
    }
    assert s.out[..k] == s.out;
    merged := merged + Closing(wanted, m, s, open);
  }

  method AppendMissing(base: string, wanted: seq<string>, m: Mappings, seen: seq<bool>, ls: seq<Line>)
    returns (r: seq<Line>)
    requires |seen| == PADS
    ensures r == ls + Missing(base, wanted, m, seen, PADS)
  {
    hide PadSection;
    r := ls;
    var i := 0;
    while i < PADS
      invariant 0 <= i <= PADS && r == ls + Missing(base, wanted, m, seen, i)
    {
      Assoc(ls, Missing(base, wanted, m, seen, i), OneMissing(base, wanted, m, seen, i));
      if !seen[i] { r := r + PadSection(base, wanted, m, i); }
      i := i + 1;
    }
  }

  // Writes a profile that did not exist.
  method GenerateControllerConfig(base: string, wanted: seq<string>, m: Mappings, wiimote: bool) returns (r: Outcome)
    ensures r == if ValidControllerList(wanted) then Written(Texts(Fresh(base, wanted, m, wiimote))) else Invalid
  {
    if !ValidControllerList(wanted) { return Invalid; }
    var out := AppendMissing(base, wanted, m, UNMARKED, []);
    assert [] + Missing(base, wanted, m, UNMARKED, PADS) == Missing(base, wanted, m, UNMARKED, PADS);
    if wiimote { out := out + [Added(BALANCE_BOARD)]; }
    return Written(Texts(out));
  }

  // `file` is the profile's lines, if there is such a file.
  method EnsureControllerConfig(base: string, wanted: seq<string>, m: Mappings, wiimote: bool,
                                file: Option<seq<string>>)
    returns (r: Outcome)
    requires ']' !in base && PlainMappings(base, m)
    ensures
      var mean, lines := MeanerOf(base), if file.Some? then file.value else [];
      r == if Controllers(mean, lines) != [] then UsingExisting
           else if !ValidControllerList(wanted) then Invalid
           else Written(Texts(if file.Some? then Merged(mean, base, wanted, m, lines)
                              else Fresh(base, wanted, m, wiimote)))
    ensures r.Written? ==> Controllers(MeanerOf(base), r.lines) == NonEmpty(Normals(wanted))
  {
    hide Merged;
    hide Fresh;
    hide Controllers;
    ghost var mean := MeanerOf(base);
    AddedLinesAreUnderstood(base, m);
    if file.None? {
      MergeOfNothing(mean, base, m, wanted);
      if ValidControllerList(wanted) { FreshReadsBack(base, m, wanted, wiimote); }
      r := GenerateControllerConfig(base, wanted, m, wiimote);
      return;
    }
    var configured := ReadConfiguredControllers(base, file.value);
    if configured != [] { return UsingExisting; }
    if !ValidControllerList(wanted) { return Invalid; }
    MergedReadsBack(mean, base, m, wanted, file.value);
    var lines := MergeFile(base, wanted, m, file.value);
    return Written(Texts(lines));
  }

  // Binds the selected devices in a profile that is there.
  method MergeFile(base: string, wanted: seq<string>, m: Mappings, lines: seq<string>) returns (out: seq<Line>)
    ensures out == Merged(MeanerOf(base), base, wanted, m, lines)
  {
    hide Missing;
    hide SpliceAll;
    hide ScanAll;
    var s := ScanPass(base, wanted, lines);
    var merged := SplicePass(base, wanted, m, s);
    out := AppendMissing(base, wanted, m, s.seen, merged);
  }
}
