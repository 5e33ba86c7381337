/** The append-only ledger of consumed bootstrap credentials: its text, and its behaviour over crashes. */
module Ledger {
  import opened Wrappers
  import opened ByteStrings

  // ------------------------------------------------------------------- credential keys

  /** The parts of a bootstrap certificate the ledger reads. */
  datatype Credential = Credential(rawIssuer: bytes, serial: int, commonName: string)

  const HEX_DIGITS := "0123456789abcdef"

  function HexBytes(b: bytes): (s: string)
    ensures |s| == 2 * |b|
  {
    if b == [] then ""
    else [HEX_DIGITS[b[0] as int / 16], HEX_DIGITS[b[0] as int % 16]] + HexBytes(b[1..])
  }

  /** big.Int.Text(16). */
  function HexNat(n: nat): string {
    if n < 16 then [HEX_DIGITS[n]] else HexNat(n / 16) + [HEX_DIGITS[n % 16]]
  }

  function HexInt(n: int): string { if n < 0 then "-" + HexNat(-n) else HexNat(n) }

  function CredentialKey(c: Credential): string { HexBytes(c.rawIssuer) + ":" + HexInt(c.serial) }

  lemma DigitsDiffer(i: nat, j: nat)
    requires i < 16 && j < 16 && HEX_DIGITS[i] == HEX_DIGITS[j]
    ensures i == j
  {
  }

  predicate HexText(s: string) {
    forall ch | ch in s :: ch in HEX_DIGITS
  }

  lemma {:induction false} HexBytesText(b: bytes)
    ensures HexText(HexBytes(b))
  {
    if b != [] { HexBytesText(b[1..]); }
  }

  lemma {:induction false} HexNatText(n: nat)
    ensures HexText(HexNat(n)) && HexNat(n) != ""
  {
    if n >= 16 { HexNatText(n / 16); }
  }

  lemma {:induction false} HexBytesInjective(a: bytes, b: bytes)
    requires HexBytes(a) == HexBytes(b)
    ensures a == b
  {
    assert |a| == |b|;
    if a != [] {
      var s, t := HexBytes(a), HexBytes(b);
      assert s[0] == t[0] && s[1] == t[1] && s[2..] == t[2..];
      DigitsDiffer(a[0] as int / 16, b[0] as int / 16);
      DigitsDiffer(a[0] as int % 16, b[0] as int % 16);
      HexBytesInjective(a[1..], b[1..]);
      assert a == [a[0]] + a[1..] && b == [b[0]] + b[1..];
    }
  }

  lemma {:induction false} HexNatInjective(m: nat, n: nat)
    requires HexNat(m) == HexNat(n)
    ensures m == n
  {
    HexNatText(m / 16);
    HexNatText(n / 16);
    var s, t := HexNat(m), HexNat(n);
    if m < 16 && n < 16 {
      DigitsDiffer(m, n);
    } else if m >= 16 && n >= 16 {
      assert s[..|s| - 1] == HexNat(m / 16) && t[..|t| - 1] == HexNat(n / 16);
      assert s[|s| - 1] == t[|t| - 1];
      DigitsDiffer(m % 16, n % 16);
      HexNatInjective(m / 16, n / 16);
    }
  }

  lemma HexIntInjective(m: int, n: int)
    requires HexInt(m) == HexInt(n)
    ensures m == n
  {
    hide HexNat;
    HexNatText(if m < 0 then -m else m);
    HexNatText(if n < 0 then -n else n);
    assert '-' !in HEX_DIGITS;
    var s, t := HexInt(m), HexInt(n);
    assert m < 0 <==> s[0] == '-';
    assert n < 0 <==> t[0] == '-';
    if m < 0 {
      assert s[1..] == HexNat(-m) && t[1..] == HexNat(-n);
      HexNatInjective(-m, -n);
    } else {
      HexNatInjective(m, n);
    }
  }

  /** Text between a separator that is not in the parts determines the parts. */
  lemma SeparatedUnique(a: string, x: string, b: string, y: string, sep: char)
    requires sep !in a && sep !in b && a + [sep] + x == b + [sep] + y
    ensures a == b && x == y
  {
    var s := a + [sep] + x;
    assert s[|a|] == sep && s[|b|] == sep;
    assert |a| == |b|;
    assert a == s[..|a|] && b == s[..|b|];
    assert x == s[|a| + 1..] && y == s[|b| + 1..];
  }

  /** Different issuer or serial, different key. */
  lemma CredentialKeyInjective(c: Credential, d: Credential)
    requires CredentialKey(c) == CredentialKey(d)
    ensures c.rawIssuer == d.rawIssuer && c.serial == d.serial
  {
    HexBytesText(c.rawIssuer);
    HexBytesText(d.rawIssuer);
    assert ':' !in HEX_DIGITS;
    SeparatedUnique(HexBytes(c.rawIssuer), HexInt(c.serial), HexBytes(d.rawIssuer), HexInt(d.serial), ':');
    HexBytesInjective(c.rawIssuer, d.rawIssuer);
    HexIntInjective(c.serial, d.serial);
  }

  lemma CredentialKeyPlain(c: Credential)
    ensures ' ' !in CredentialKey(c) && '\n' !in CredentialKey(c)
  {
    HexBytesText(c.rawIssuer);
    HexNatText(if c.serial < 0 then -c.serial else c.serial);
    assert ' ' !in HEX_DIGITS && '\n' !in HEX_DIGITS;
  }

  // ------------------------------------------------------------------- the ledger file

  datatype Entry = Entry(key: string, commonName: string, stamp: string)

  /** "%s %s %s\n" without its newline. */
  function LineOf(e: Entry): string { e.key + " " + e.commonName + " " + e.stamp }

  function Line(e: Entry): string { LineOf(e) + "\n" }

  /** The text after an append that wrote k characters of the entry's line. */
  predicate LeftBehind(before: string, e: Entry, k: nat, after: string) {
    k <= |Line(e)| && after == before + Line(e)[..k]
  }

  function Content(entries: seq<Entry>): string {
    if entries == [] then "" else Content(entries[..|entries| - 1]) + LineOf(entries[|entries| - 1]) + "\n"
  }

  /** A key of hex text, a name without a newline, a stamp that ends like RFC 3339 in UTC. */
  predicate WellFormed(e: Entry) {
    && ' ' !in e.key && '\n' !in e.key && '\n' !in e.commonName && '\n' !in e.stamp
    && |e.stamp| > 0 && e.stamp[|e.stamp| - 1] == 'Z'
  }

  // bufio.MaxScanTokenSize: a longer line stops the scanner with an error.
  const MAX_LINE: nat := 64 * 1024

  function DropCarriageReturn(line: string): string {
    if |line| > 0 && line[|line| - 1] == '\r' then line[..|line| - 1] else line
  }

  /** bufio.ScanLines: what follows `open`, the line begun so far. */
  function ScanLines(open: string, text: string): seq<string>
    decreases text
  {
    if text == "" then (if open == "" then [] else [open])
    else if text[0] == '\n' then [open] + ScanLines("", text[1..])
    else ScanLines(open + [text[0]], text[1..])
  }

  /** strings.Cut at the first space: the part before it, if there is a space. */
  function CutKey(line: string): Option<string> {
    if line == "" then None
    else if line[0] == ' ' then Some("")
    else
      var rest := CutKey(line[1..]);
      if rest.None? then None else Some([line[0]] + rest.value)
  }

  ghost predicate KeyListed(lines: seq<string>, key: string) {
    exists i | 0 <= i < |lines| :: CutKey(DropCarriageReturn(lines[i])) == Some(key)
  }

  method ReadKeys(text: string) returns (used: set<string>, ok: bool)
    ensures ok <==> forall line | line in ScanLines("", text) :: |line| < MAX_LINE
    ensures ok ==> forall key :: key in used <==> KeyListed(ScanLines("", text), key)
  {
    var lines := ScanLines("", text);
    used := {};
    for i := 0 to |lines|
      invariant forall k | 0 <= k < i :: |lines[k]| < MAX_LINE
      invariant forall key :: key in used <==> KeyListed(lines[..i], key)
    {
      if |lines[i]| >= MAX_LINE {
        return used, false;
      }
      var key := CutKey(DropCarriageReturn(lines[i]));
      ghost var before := used;
      if key.Some? {
        used := used + {key.value};
      }
      forall k ensures k in used <==> KeyListed(lines[..i + 1], k) {
        ListedNext(lines, i, k);
      }
    }
    assert lines[..|lines|] == lines;
    return used, true;
  }

  lemma ListedNext(lines: seq<string>, i: nat, key: string)
    requires i < |lines|
    ensures KeyListed(lines[..i + 1], key) <==>
            KeyListed(lines[..i], key) || CutKey(DropCarriageReturn(lines[i])) == Some(key)
  {
    if KeyListed(lines[..i], key) {
      var k :| 0 <= k < i && CutKey(DropCarriageReturn(lines[..i][k])) == Some(key);
      assert lines[..i + 1][k] == lines[..i][k];
    }
    if CutKey(DropCarriageReturn(lines[i])) == Some(key) {
      assert lines[..i + 1][i] == lines[i];
    }
  }

  lemma {:induction false} ScanLine(open: string, line: string, rest: string)
    requires '\n' !in line
    ensures ScanLines(open, line + "\n" + rest) == [open + line] + ScanLines("", rest)
    decreases line
  {
    var text := line + "\n" + rest;
    if line == "" {
      assert text[1..] == rest && open + line == open;
    } else {
      assert text[0] == line[0] && text[1..] == line[1..] + "\n" + rest;
      ScanLine(open + [line[0]], line[1..], rest);
      assert (open + [line[0]]) + line[1..] == open + line;
    }
  }

  lemma {:induction false} CutKeyOf(key: string, rest: string)
    requires ' ' !in key
    ensures CutKey(key + " " + rest) == Some(key)
  {
    var line := key + " " + rest;
    if key != "" {
      assert line[0] == key[0] && line[1..] == key[1..] + " " + rest;
      CutKeyOf(key[1..], rest);
      assert [key[0]] + key[1..] == key;
    }
  }

  lemma EntryLine(e: Entry)
    requires WellFormed(e)
    ensures '\n' !in LineOf(e) && CutKey(DropCarriageReturn(LineOf(e))) == Some(e.key)
  {
    var line := LineOf(e);
    assert line[|line| - 1] == 'Z';
    assert line == e.key + " " + (e.commonName + " " + e.stamp);
    CutKeyOf(e.key, e.commonName + " " + e.stamp);
  }

  /** A line says what its entry says: no two entries of plain names and stamps share one. */
  lemma LineInjective(e: Entry, f: Entry)
    requires ' ' !in e.key + e.commonName + e.stamp && ' ' !in f.key + f.commonName + f.stamp
    requires LineOf(e) == LineOf(f)
    ensures e == f
  {
    var x, y := e.commonName + " " + e.stamp, f.commonName + " " + f.stamp;
    assert LineOf(e) == e.key + [' '] + x && LineOf(f) == f.key + [' '] + y;
    SeparatedUnique(e.key, x, f.key, y, ' ');
    SeparatedUnique(e.commonName, e.stamp, f.commonName, f.stamp, ' ');
  }

  function LinesOf(entries: seq<Entry>): (lines: seq<string>)
    ensures |lines| == |entries|
  {
    seq(|entries|, i requires 0 <= i < |entries| => LineOf(entries[i]))
  }

  /** The file reads back, line by line, as what was appended. */
  lemma {:induction false} ContentScans(entries: seq<Entry>, rest: string)
    requires forall e | e in entries :: WellFormed(e)
    ensures ScanLines("", Content(entries) + rest) ==
            LinesOf(entries) + ScanLines("", rest)
    decreases |entries|
  {
    if entries == [] {
      assert Content(entries) + rest == rest;
    } else {
      var n := |entries| - 1;
      var line := LineOf(entries[n]);
      EntryLine(entries[n]);
      assert Content(entries) + rest == Content(entries[..n]) + (line + "\n" + rest);
      ContentScans(entries[..n], line + "\n" + rest);
      ScanLine("", line, rest);
      assert LinesOf(entries) == LinesOf(entries[..n]) + [line];
      assert "" + line == line;
    }
  }

  /** The keys read back are exactly the keys that were appended. */
  lemma ContentKeys(entries: seq<Entry>, key: string)
    requires forall e | e in entries :: WellFormed(e)
    ensures KeyListed(ScanLines("", Content(entries)), key) <==> exists e :: e in entries && e.key == key
  {
    ContentScans(entries, "");
    assert Content(entries) + "" == Content(entries);
    var lines := ScanLines("", Content(entries));
    assert |lines| == |entries| && forall i | 0 <= i < |entries| :: lines[i] == LineOf(entries[i]);
    forall i | 0 <= i < |entries| ensures CutKey(DropCarriageReturn(lines[i])) == Some(entries[i].key) {
      EntryLine(entries[i]);
    }
  }

  lemma {:induction false} CutKeyAfter(torn: string, key: string, rest: string)
    requires ' ' !in key
    ensures CutKey(torn + key + " " + rest) == if ' ' in torn then CutKey(torn) else Some(torn + key)
    decreases torn
  {
    var line := torn + key + " " + rest;
    if torn == "" {
      assert line == key + " " + rest && torn + key == key;
      CutKeyOf(key, rest);
    } else if torn[0] != ' ' {
      assert line[1..] == torn[1..] + key + " " + rest;
      CutKeyAfter(torn[1..], key, rest);
      assert [torn[0]] + (torn[1..] + key) == torn + key;
    }
  }

  lemma {:induction false} CutKeyNeedsSpace(line: string)
    ensures CutKey(line).None? <==> ' ' !in line
  {
    if line != "" && line[0] != ' ' {
      CutKeyNeedsSpace(line[1..]);
    }
  }

  /**
   * Why appends must be all-or-nothing. After a line that was cut short, the next entry is
   * read back exactly if nothing was left of that line, or it was a line of the same key:
   * any other remnant makes the ledger forget the entry that follows it.
   */
  lemma TornLineForgetsIff(torn: string, e: Entry)
    requires WellFormed(e) && '\n' !in torn
    ensures KeyListed(ScanLines("", torn + LineOf(e) + "\n"), e.key) <==>
            torn == "" || CutKey(torn) == Some(e.key)
  {
    var line := torn + LineOf(e);
    TornLineAlone(torn, e);
    TornLineKey(torn, e);
    CutKeyNeedsSpace(torn);
    hide CutKey, ScanLines, LineOf, WellFormed;
    var lines := ScanLines("", line + "\n");
    assert KeyListed(lines, e.key) <==> CutKey(DropCarriageReturn(lines[0])) == Some(e.key);
    assert torn != "" ==> |torn + e.key| != |e.key|;
    assert torn == "" ==> torn + e.key == e.key;
  }

  lemma TornLineAlone(torn: string, e: Entry)
    requires WellFormed(e) && '\n' !in torn
    ensures ScanLines("", torn + LineOf(e) + "\n") == [torn + LineOf(e)]
  {
    EntryLine(e);
    hide LineOf, CutKey, WellFormed;
    var line := torn + LineOf(e);
    assert line + "\n" + "" == line + "\n" && "" + line == line;
    ScanLine("", line, "");
  }

  lemma TornLineKey(torn: string, e: Entry)
    requires WellFormed(e)
    ensures CutKey(DropCarriageReturn(torn + LineOf(e))) == if ' ' in torn then CutKey(torn) else Some(torn + e.key)
  {
    var rest := e.commonName + " " + e.stamp;
    LineSplits(e);
    hide CutKey, LineOf, WellFormed;
    EndsInZ(torn, LineOf(e));
    Associated(torn, e.key, rest);
    CutKeyAfter(torn, e.key, rest);
  }

  lemma EndsInZ(torn: string, line: string)
    requires line != "" && line[|line| - 1] == 'Z'
    ensures DropCarriageReturn(torn + line) == torn + line
  {
    assert (torn + line)[|torn + line| - 1] == 'Z';
  }

  lemma Associated(torn: string, key: string, rest: string)
    ensures torn + (key + " " + rest) == torn + key + " " + rest
  {
  }

  lemma LineSplits(e: Entry)
    requires WellFormed(e)
    ensures LineOf(e) == e.key + " " + (e.commonName + " " + e.stamp)
    ensures ' ' !in e.key && LineOf(e)[|LineOf(e)| - 1] == 'Z'
  {
  }

  // ------------------------------------------------------------------------ the object

  /** The file: its text, and how much of it a crash cannot take away. */
  class LedgerFile {
    var text: string
    var synced: nat

    constructor ()
      ensures text == "" && synced == 0
    {
      text, synced := "", 0;
    }

    /** One write call: all of the line, or an error after any part of it. */
    method Append(line: string) returns (ok: bool)
      modifies this`text
      ensures ok ==> text == old(text) + line
      ensures !ok ==> exists k: nat :: k <= |line| && text == old(text) + line[..k]
    {
      ok := *;
      var k: nat :| k <= |line|;
      text := text + if ok then line else line[..k];
    }

    method Sync() returns (ok: bool)
      modifies this`synced
      ensures synced == if ok then |text| else old(synced)
    {
      ok := *;
      if ok {
        synced := |text|;
      }
    }
  }

  class UsedCredentials {
    const file: LedgerFile
    var used: set<string>

    constructor (file: LedgerFile, used: set<string>)
      ensures this.file == file && this.used == used
    {
      this.file, this.used := file, used;
    }

    /**
     * Success means the entry is durable. Failure never marks the credential as used, and
     * leaves any part of its line behind, from nothing to all of it.
     */
    method Consume(c: Credential, stamp: string) returns (ok: bool)
      modifies this`used, file
      ensures ok ==>
                && CredentialKey(c) !in old(used) && used == old(used) + {CredentialKey(c)}
                && file.text == old(file.text) + Line(Entry(CredentialKey(c), c.commonName, stamp))
                && file.synced == |file.text|
      ensures !ok ==>
                && used == old(used) && file.synced == old(file.synced)
                && exists k: nat :: LeftBehind(old(file.text), Entry(CredentialKey(c), c.commonName, stamp), k, file.text)
      ensures CredentialKey(c) in old(used) ==> !ok && file.text == old(file.text)
    {
      ghost var before := file.text;
      var key := CredentialKey(c);
      ghost var entry := Entry(key, c.commonName, stamp);
      assert before + Line(entry)[..0] == before;
      assert LeftBehind(before, entry, 0, before);
      if key in used {
        return false;
      }
      var canOpen: bool := *;
      if !canOpen {
        return false;
      }
      var line := key + " " + c.commonName + " " + stamp + "\n";
      assert line == Line(entry);
      ok := file.Append(line);
      if !ok {
        ghost var k: nat :| k <= |line| && file.text == before + line[..k];
        assert LeftBehind(before, entry, k, file.text);
        return false;
      }
      assert Line(entry)[..|line|] == line;
      assert LeftBehind(before, entry, |line|, file.text);
      ok := file.Sync();
      if !ok {
        assert LeftBehind(before, entry, |line|, file.text);
        return false;
      }
      used := used + {key};
      return true;
    }
  }

  // ---------------------------------------------------------- whole lines and remnants

  /** The keys the lines of a text list. */
  function KeysIn(text: string): set<string> {
    var lines := ScanLines("", text);
    set i | 0 <= i < |lines| && CutKey(DropCarriageReturn(lines[i])).Some? :: CutKey(DropCarriageReturn(lines[i])).value
  }

  lemma KeysListed(text: string, key: string)
    ensures key in KeysIn(text) <==> KeyListed(ScanLines("", text), key)
  {
    hide ScanLines, CutKey;
  }

  /** No line beyond the scanner's limit. */
  predicate Readable(text: string) {
    forall line | line in ScanLines("", text) :: |line| < MAX_LINE
  }

  predicate AtLineEnd(text: string) { text == "" || text[|text| - 1] == '\n' }

  /** Where the last line begins: after the last newline. */
  function LineStart(text: string): (n: nat)
    ensures n <= |text|
  {
    if AtLineEnd(text) then |text| else LineStart(text[..|text| - 1])
  }

  function WholeLines(text: string): string { text[..LineStart(text)] }

  /** A line that was cut short. */
  function Remnant(text: string): string { text[LineStart(text)..] }

  lemma {:induction false} RemnantFits(text: string)
    ensures '\n' !in Remnant(text) && AtLineEnd(WholeLines(text)) && text == WholeLines(text) + Remnant(text)
  {
    if !AtLineEnd(text) {
      var shorter, n := text[..|text| - 1], LineStart(text);
      RemnantFits(shorter);
      assert text[..n] == shorter[..n] && text[n..] == shorter[n..] + [text[|text| - 1]];
    }
  }

  lemma {:induction false} ScanAfter(open: string, whole: string, rest: string)
    requires whole != "" && AtLineEnd(whole)
    ensures ScanLines(open, whole + rest) == ScanLines(open, whole) + ScanLines("", rest)
    decreases whole
  {
    var text := whole + rest;
    assert text[1..] == whole[1..] + rest;
    if |whole| == 1 {
      assert whole[1..] == "" && text[1..] == rest;
    } else if whole[0] == '\n' {
      ScanAfter("", whole[1..], rest);
    } else {
      ScanAfter(open + [whole[0]], whole[1..], rest);
    }
  }

  /** Whole lines are read the same whatever follows them. */
  lemma KeysAfter(whole: string, rest: string)
    requires AtLineEnd(whole)
    ensures KeysIn(whole + rest) == KeysIn(whole) + KeysIn(rest)
  {
    var a, b := ScanLines("", whole), ScanLines("", rest);
    if whole == "" {
      assert whole + rest == rest;
    } else {
      ScanAfter("", whole, rest);
    }
    hide ScanLines, CutKey, KeysIn;
    assert ScanLines("", whole + rest) == a + b;
    forall key: string ensures key in KeysIn(whole + rest) <==> key in KeysIn(whole) || key in KeysIn(rest) {
      KeysListed(whole + rest, key);
      KeysListed(whole, key);
      KeysListed(rest, key);
      ListedInEither(a, b, key);
    }
  }

  lemma ListedInEither(a: seq<string>, b: seq<string>, key: string)
    ensures KeyListed(a + b, key) <==> KeyListed(a, key) || KeyListed(b, key)
  {
    if KeyListed(a, key) {
      var i :| 0 <= i < |a| && CutKey(DropCarriageReturn(a[i])) == Some(key);
      assert (a + b)[i] == a[i];
    }
    if KeyListed(b, key) {
      var i :| 0 <= i < |b| && CutKey(DropCarriageReturn(b[i])) == Some(key);
      assert (a + b)[|a| + i] == b[i];
    }
  }

  /** An entry appended here will be read back: nothing in front of it on its line hides it. */
  predicate Appendable(text: string, key: string) {
    Remnant(text) == "" || CutKey(Remnant(text)) == Some(key) || key in KeysIn(WholeLines(text))
  }

  /** Exactly the appends after which the ledger lists the key. */
  lemma AppendListsIff(text: string, e: Entry)
    requires WellFormed(e)
    ensures e.key in KeysIn(text + Line(e)) <==> Appendable(text, e.key)
    ensures AtLineEnd(text + Line(e))
  {
    RemnantFits(text);
    var whole, torn := WholeLines(text), Remnant(text);
    assert text + Line(e) == whole + (torn + LineOf(e) + "\n");
    KeysAfter(whole, torn + LineOf(e) + "\n");
    KeysListed(torn + LineOf(e) + "\n", e.key);
    TornLineForgetsIff(torn, e);
    hide KeysIn, WholeLines, Remnant, ScanLines, CutKey, LineOf;
  }

  // ----------------------------------------------------------------- runs with crashes

  /**
   * The ledger over crashes: the file's text, how much of it is synced, the keys in memory
   * while a server runs, and the history of keys whose Consume succeeded.
   */
  datatype State = State(text: string, synced: nat, memory: Option<set<string>>, consumed: seq<string>)

  const NEW_LEDGER: State := State("", 0, None, [])

  datatype Event =
    | Crash(kept: nat)                              // unsynced text may be lost, from any character on
    | Open
    | Consume(entry: Entry)                         // written, synced and remembered
    | FailConsume(entry: Entry, written: nat)       // an error after some of the line was written

  ghost predicate Enabled(s: State, e: Event) {
    match e
    case Crash(kept) => s.synced <= kept <= |s.text|
    case Open => s.memory.None?
    case Consume(entry) => s.memory.Some? && WellFormed(entry) && entry.key !in s.memory.value
    case FailConsume(entry, written) => s.memory.Some? && written <= |Line(entry)|
  }

  function Apply(s: State, e: Event): State {
    match e
    case Crash(kept) => if kept <= |s.text| then s.(text := s.text[..kept], memory := None) else s
    case Open =>
      // A line the scanner cannot hold leaves the server down.
      if Readable(s.text) then s.(memory := Some(KeysIn(s.text))) else s
    case Consume(entry) =>
      if s.memory.None? then s
      else State(s.text + Line(entry), |s.text + Line(entry)|, Some(s.memory.value + {entry.key}), s.consumed + [entry.key])
    case FailConsume(entry, written) => if written <= |Line(entry)| then s.(text := s.text + Line(entry)[..written]) else s
  }

  function Run(s: State, es: seq<Event>): State
    decreases es
  {
    if es == [] then s else Run(Apply(s, es[0]), es[1..])
  }

  ghost predicate ValidRun(s: State, es: seq<Event>)
    decreases es
  {
    es == [] || (Enabled(s, es[0]) && ValidRun(Apply(s, es[0]), es[1..]))
  }

  /** No successful append goes onto a line that hides it. */
  predicate Unhidden(s: State, e: Event) { e.Consume? ==> Appendable(s.text, e.entry.key) }

  predicate NeverHidden(s: State, es: seq<Event>)
    decreases es
  {
    es == [] || (Unhidden(s, es[0]) && NeverHidden(Apply(s, es[0]), es[1..]))
  }

  /** Every consumed key is on disk for good, and in memory whenever there is a memory. */
  ghost predicate Inv(s: State) {
    && s.synced <= |s.text| && AtLineEnd(s.text[..s.synced])
    && (forall k | k in s.consumed :: k in KeysIn(s.text[..s.synced]))
    && (s.memory.Some? ==> forall k | k in s.consumed :: k in s.memory.value)
    && (forall i, j | 0 <= i < j < |s.consumed| :: s.consumed[i] != s.consumed[j])
  }

  lemma SyncedStays(s: State)
    requires Inv(s)
    ensures forall k | k in s.consumed :: k in KeysIn(s.text)
  {
    var whole, rest := s.text[..s.synced], s.text[s.synced..];
    assert s.text == whole + rest;
    KeysAfter(whole, rest);
  }

  lemma ConsumeKeepsInv(s: State, e: Entry)
    requires Inv(s) && Enabled(s, Consume(e)) && Appendable(s.text, e.key)
    ensures Inv(Apply(s, Consume(e)))
  {
    hide KeysIn, Appendable, Line, Readable, WellFormed;
    var s', whole, rest := Apply(s, Consume(e)), s.text[..s.synced], s.text[s.synced..];
    AppendListsIff(s.text, e);
    assert s.text + Line(e) == whole + (rest + Line(e));
    KeysAfter(whole, rest + Line(e));
    assert s'.text[..s'.synced] == s'.text;
  }

  lemma StepKeepsInv(s: State, e: Event)
    requires Inv(s) && Enabled(s, e) && Unhidden(s, e)
    ensures Inv(Apply(s, e))
  {
    hide KeysIn, Line, Appendable;
    match e
    case Crash(kept) => assert s.text[..kept][..s.synced] == s.text[..s.synced];
    case Open => SyncedStays(s);
    case Consume(entry) => ConsumeKeepsInv(s, entry);
    case FailConsume(entry, written) => assert Apply(s, e).text[..s.synced] == s.text[..s.synced];
  }

  lemma {:induction false} RunKeepsInv(s: State, es: seq<Event>)
    requires Inv(s) && ValidRun(s, es) && NeverHidden(s, es)
    ensures Inv(Run(s, es))
    decreases es
  {
    if es != [] {
      StepKeepsInv(s, es[0]);
      RunKeepsInv(Apply(s, es[0]), es[1..]);
    }
  }

  /**
   * Single consumption across crashes: over any run with crashes at any character and
   * reopenings at any point, no credential key is consumed twice, provided no successful
   * append goes onto a cut line that hides it.
   */
  lemma ConsumedOnce(es: seq<Event>)
    requires ValidRun(NEW_LEDGER, es) && NeverHidden(NEW_LEDGER, es)
    ensures var s := Run(NEW_LEDGER, es);
            forall i, j | 0 <= i < j < |s.consumed| :: s.consumed[i] != s.consumed[j]
  {
    RunKeepsInv(NEW_LEDGER, es);
  }

  /** A consumption, a clean restart, and the same credential again. */
  function Again(s: State, e: Entry): seq<Event> {
    [Consume(e), Crash(|s.text + Line(e)|), Open, Consume(e)]
  }

  /**
   * And exactly then: at any state, consuming a credential, restarting and consuming it
   * again is possible if and only if the first of the two goes onto such a line.
   */
  lemma ConsumedTwiceIff(s: State, e: Entry)
    requires s.memory.Some? && WellFormed(e) && e.key !in s.memory.value && Readable(s.text + Line(e))
    ensures ValidRun(s, Again(s, e)) <==> !Appendable(s.text, e.key)
    ensures Run(s, Again(s, e)[..1]).consumed == s.consumed + [e.key]
    ensures ValidRun(s, Again(s, e)) ==> Run(s, Again(s, e)).consumed == s.consumed + [e.key] + [e.key]
  {
    AppendListsIff(s.text, e);
    hide KeysIn, Appendable, Line, Readable, WellFormed;
    var es, after := Again(s, e), s.text + Line(e);
    var s1 := Apply(s, es[0]);
    var s2 := Apply(s1, es[1]);
    var s3 := Apply(s2, es[2]);
    assert after[..|after|] == after;
    assert s3 == s1.(memory := Some(KeysIn(after)));
    FourEvents(s, es);
    assert es[..1][1..] == [];
    assert Run(s, es[..1]) == s1;
  }

  lemma FourEvents(s: State, es: seq<Event>)
    requires |es| == 4
    ensures var s1 := Apply(s, es[0]);
            var s2 := Apply(s1, es[1]);
            var s3 := Apply(s2, es[2]);
            && Run(s, es) == Apply(s3, es[3])
            && (ValidRun(s, es) <==> Enabled(s, es[0]) && Enabled(s1, es[1]) && Enabled(s2, es[2]) && Enabled(s3, es[3]))
  {
    hide Apply, Enabled;
    var s1 := Apply(s, es[0]);
    var s2 := Apply(s1, es[1]);
    var s3 := Apply(s2, es[2]);
    var s4 := Apply(s3, es[3]);
    var e1, e2, e3, e4 := es[1..], es[1..][1..], es[1..][1..][1..], es[1..][1..][1..][1..];
    assert e4 == [] && e3[0] == es[3] && e2[0] == es[2] && e1[0] == es[1];
    assert Run(s, es) == Run(s2, e2) && Run(s2, e2) == Run(s4, e4);
    assert ValidRun(s3, e3) <==> Enabled(s3, es[3]) && ValidRun(s4, e4);
    assert ValidRun(s2, e2) <==> Enabled(s2, es[2]) && ValidRun(s3, e3);
    assert ValidRun(s1, e1) <==> Enabled(s1, es[1]) && ValidRun(s2, e2);
  }

  /** A write that failed after the first character of one line, and then another credential. */
  lemma CutLineLetsACredentialInTwice(e: Entry, f: Entry)
    requires WellFormed(e) && WellFormed(f) && e.key != "" && |LineOf(f)| + 1 < MAX_LINE
    ensures var start := [Open, FailConsume(e, 1)];
            var s := Run(NEW_LEDGER, start);
            && ValidRun(NEW_LEDGER, start) && ValidRun(s, Again(s, f))
            && Run(s, Again(s, f)).consumed == [f.key, f.key]
  {
    var start := [Open, FailConsume(e, 1)];
    var s := State(e.key[..1], 0, Some({}), []);
    CutStart(e);
    CutOff(e.key[0], f);
    assert [e.key[0]] == e.key[..1];
    ShortLine(e.key[..1], f);
    hide ValidRun, Appendable, Readable, LineOf, Line;
    ConsumedTwiceIff(s, f);
    assert [] + [f.key] + [f.key] == [f.key, f.key];
  }

  lemma CutStart(e: Entry)
    requires WellFormed(e) && e.key != ""
    ensures var start := [Open, FailConsume(e, 1)];
            ValidRun(NEW_LEDGER, start) && Run(NEW_LEDGER, start) == State(e.key[..1], 0, Some({}), [])
  {
    NoKeys();
    var start := [Open, FailConsume(e, 1)];
    var s1 := Apply(NEW_LEDGER, Open);
    assert s1 == NEW_LEDGER.(memory := Some({})) by { assert ScanLines("", "") == []; }
    assert Line(e)[..1] == e.key[..1] && "" + e.key[..1] == e.key[..1];
    hide KeysIn, Readable, WellFormed;
    assert start[1..] == [FailConsume(e, 1)] && start[1..][1..] == [];
    var s2 := Apply(s1, start[1]);
    assert Run(s1, start[1..]) == Run(s2, []) == s2;
    assert ValidRun(s2, []) && ValidRun(s1, start[1..]);
  }

  lemma CutOff(ch: char, f: Entry)
    requires ch != ' ' && ch != '\n'
    ensures !Appendable([ch], f.key)
  {
    var text := [ch];
    assert text[..0] == "" && LineStart(text) == LineStart(text[..0]) == 0;
    assert Remnant(text) == text && WholeLines(text) == "";
    CutKeyNeedsSpace(text);
    NoKeys();
    hide KeysIn;
  }

  lemma NoKeys()
    ensures KeysIn("") == {}
  {
    assert ScanLines("", "") == [];
  }

  lemma ShortLine(text: string, f: Entry)
    requires '\n' !in text && WellFormed(f) && |text| + |LineOf(f)| < MAX_LINE
    ensures Readable(text + Line(f))
  {
    TornLineAlone(text, f);
    assert text + Line(f) == text + LineOf(f) + "\n";
  }

  /** For a file of whole lines, opening restores exactly the keys appended, if no line is too long. */
  lemma OpenReadsText(entries: seq<Entry>)
    requires forall e | e in entries :: WellFormed(e)
    ensures (forall x | x in entries :: |LineOf(x)| < MAX_LINE) <==> Readable(Content(entries))
    ensures forall key :: key in KeysIn(Content(entries)) <==> exists e :: e in entries && e.key == key
  {
    ContentScans(entries, "");
    assert Content(entries) + "" == Content(entries);
    var lines := ScanLines("", Content(entries));
    assert |lines| == |entries| && forall i | 0 <= i < |lines| :: lines[i] == LineOf(entries[i]);
    forall x | x in entries ensures LineOf(x) in lines {
      var i :| 0 <= i < |entries| && entries[i] == x;
      assert lines[i] == LineOf(x);
    }
    hide KeysIn;
    forall key ensures key in KeysIn(Content(entries)) <==> exists e :: e in entries && e.key == key {
      KeysListed(Content(entries), key);
      ContentKeys(entries, key);
    }
  }
}
