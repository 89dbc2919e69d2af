/** Sleuth Kit bodyfile lines: one pipe-delimited line an entry, names escaped. */
module Bodyfile {
  import opened Bytes
  import opened Catalogue
  import Crc

  function TypeLetter(k: EntryKind): char {
    match k
    case File => 'r'
    case Hardlink => 'r'
    case Directory => 'd'
    case Symlink => 'l'
    case NamedPipe => 'p'
    case Socket => 's'
    case CharDevice => 'c'
    case BlockDevice => 'b'
    case Unknown(_) => '-'
  }

  // ---- Permissions ----

  const RWX := "rwx"

  predicate Bit(mode: nat, k: nat) { mode / Crc.Pow2(k) % 2 == 1 }

  /** One of the nine slots, before the special bits. */
  function Plain(mode: nat, i: nat): char
    requires i < 9
  {
    if Bit(mode, 8 - i) then RWX[i % 3] else '-'
  }

  /** An execute slot with its special bit: lower case when execute is set as well. */
  function Special(mode: nat, i: nat, bit: nat, letter: char, bare: char): char
    requires i < 9
  {
    if !Bit(mode, bit) then Plain(mode, i) else if Plain(mode, i) == 'x' then letter else bare
  }

  function Slot(mode: nat, i: nat): char
    requires i < 9
  {
    if i == 2 then Special(mode, i, 11, 's', 'S')
    else if i == 5 then Special(mode, i, 10, 's', 'S')
    else if i == 8 then Special(mode, i, 9, 't', 'T')
    else Plain(mode, i)
  }

  function PermString(mode: nat): (s: string)
    ensures |s| == 9 && forall i :: 0 <= i < 9 ==> s[i] == Slot(mode, i)
  {
    seq(9, i requires 0 <= i < 9 => Slot(mode, i))
  }

  method Permissions(mode: nat) returns (perms: string)
    ensures perms == PermString(mode)
  {
    hide Bit;
    var s := new char[9](_ => '-');
    for i := 0 to 9
      invariant forall k :: 0 <= k < 9 ==> s[k] == if k < i then Plain(mode, k) else '-'
    {
      if Bit(mode, 8 - i) {
        s[i] := RWX[i % 3];
      }
    }
    if Bit(mode, 11) {
      s[2] := if s[2] == 'x' then 's' else 'S';
    }
    if Bit(mode, 10) {
      s[5] := if s[5] == 'x' then 's' else 'S';
    }
    if Bit(mode, 9) {
      s[8] := if s[8] == 'x' then 't' else 'T';
    }
    perms := s[..];
  }

  /** What a reader of the nine letters concludes about mode bit `k`. */
  predicate ShowsBit(s: string, k: nat)
    requires |s| == 9 && k < 12
  {
    match k
    case 0 => s[8] == 'x' || s[8] == 't'
    case 1 => s[7] == 'w'
    case 2 => s[6] == 'r'
    case 3 => s[5] == 'x' || s[5] == 's'
    case 4 => s[4] == 'w'
    case 5 => s[3] == 'r'
    case 6 => s[2] == 'x' || s[2] == 's'
    case 7 => s[1] == 'w'
    case 8 => s[0] == 'r'
    case 9 => s[8] == 't' || s[8] == 'T'
    case 10 => s[5] == 's' || s[5] == 'S'
    case _ => s[2] == 's' || s[2] == 'S'
  }

  /** Weights of the mode bits, from execute for others to set-user-id. */
  const WEIGHTS: seq<nat> := [1, 2, 4, 8, 16, 32, 64, 128, 256, 512, 1024, 2048]

  lemma BitWeight(mode: nat, k: nat)
    requires k < 12
    ensures Bit(mode, k) <==> mode / WEIGHTS[k] % 2 == 1
  {
    assert Crc.Pow2(2) == 4 && Crc.Pow2(4) == 16 && Crc.Pow2(6) == 64 && Crc.Pow2(8) == 256 && Crc.Pow2(10) == 1024;
  }

  /** All twelve mode bits can be read back from the nine letters, and a letter where no bit is set is a dash. */
  lemma {:induction false} PermissionsReadBack(mode: nat, k: nat)
    requires k < 12
    ensures ShowsBit(PermString(mode), k) <==> mode / WEIGHTS[k] % 2 == 1
    ensures mode % 4096 == 0 ==> PermString(mode) == "---------"
  {
    hide Bit;
    var s := PermString(mode);
    BitWeight(mode, k);
    assert s[0] == Slot(mode, 0) && s[1] == Slot(mode, 1) && s[2] == Slot(mode, 2) && s[3] == Slot(mode, 3);
    assert s[4] == Slot(mode, 4) && s[5] == Slot(mode, 5) && s[6] == Slot(mode, 6) && s[7] == Slot(mode, 7);
    assert s[8] == Slot(mode, 8);
    if mode % 4096 == 0 {
      assert Crc.Pow2(12) == 4096 by {
        assert Crc.Pow2(2) == 4 && Crc.Pow2(4) == 16 && Crc.Pow2(6) == 64 && Crc.Pow2(8) == 256 && Crc.Pow2(10) == 1024;
      }
      forall i | 0 <= i < 12
        ensures !Bit(mode, i)
      {
        assert Bit((mode / 4096) * Crc.Pow2(12), i) <==> Bit(mode, i);
        LowBitIsClear(mode / 4096, 12, i);
      }
    }
  }

  lemma {:induction false} LowBitIsClear(x: nat, n: nat, k: nat)
    requires k < n
    ensures !Bit(x * Crc.Pow2(n), k)
    decreases n
  {
    assert x * Crc.Pow2(n) == 2 * (x * Crc.Pow2(n - 1));
    if k > 0 {
      LowBitIsClear(x, n - 1, k - 1);
      Crc.HalfShift(x * Crc.Pow2(n), k);
    }
  }

  // ---- Kinds ----

  /** The kind that a letter stands for; hard links read as files, and a dash as nothing known. */
  function KindOf(letter: char): Option<EntryKind> {
    match letter
    case 'r' => Some(File)
    case 'd' => Some(Directory)
    case 'l' => Some(Symlink)
    case 'p' => Some(NamedPipe)
    case 's' => Some(Socket)
    case 'c' => Some(CharDevice)
    case 'b' => Some(BlockDevice)
    case _ => None
  }

  /** The mode field names the kind twice, with a slash between, and then the permissions. */
  lemma {:induction false} KindReadsBack(e: EntryRef)
    ensures var f := ModeField(e);
            && |f| == 12 && f[1] == '/' && f[0] == f[2] && f[3..] == PermString(e.inode.mode)
            && KindOf(f[0]) == (if e.kind.Hardlink? then Some(File) else if e.kind.Unknown? then None else Some(e.kind))
            && (e.kind.Unknown? ==> f[0] == '-')
  {
  }

  // ---- Names ----

  predicate IsControl(c: char) { c as int < 0x20 || c as int == 0x7F }

  function EscapeChar(c: char): string {
    if c == '\\' then "\\\\"
    else if c == '|' then "\\|"
    else if IsControl(c) then ['\\', 'x', Crc.HEX[c as int / 16], Crc.HEX[c as int % 16]]
    else [c]
  }

  function Escape(s: string): string {
    if s == [] then [] else EscapeChar(s[0]) + Escape(s[1..])
  }

  /** The arms of the escaping match. */
  method EscapeOne(c: char) returns (piece: string)
    ensures piece == EscapeChar(c)
  {
    match c {
      case '\\' => piece := "\\\\";
      case '|' => piece := "\\|";
      case _ =>
        var b := c as int;
        if b < 0x20 || b == 0x7F {
          piece := ['\\', 'x', Crc.HEX[b / 16], Crc.HEX[b % 16]];
        } else {
          piece := [c];
        }
    }
  }

  method EscapeName(name: string) returns (out: string)
    ensures out == Escape(name)
  {
    hide EscapeChar;
    out := "";
    for i := 0 to |name|
      invariant out + Escape(name[i..]) == Escape(name)
    {
      assert name[i..][0] == name[i] && name[i..][1..] == name[i + 1..];
      var piece := EscapeOne(name[i]);
      out := out + piece;
    }
  }

  function HexValue(c: char): nat {
    if '0' <= c <= '9' then c as int - '0' as int else if 'a' <= c <= 'f' then c as int - 'a' as int + 10 else 0
  }

  function Unescape(s: string): string {
    if s == [] then []
    else if s[0] != '\\' then [s[0]] + Unescape(s[1..])
    else if |s| >= 4 && s[1] == 'x' then [(HexValue(s[2]) * 16 + HexValue(s[3])) as char] + Unescape(s[4..])
    else if |s| >= 2 then [s[1]] + Unescape(s[2..])
    else []
  }

  lemma UnescapeOne(c: char, rest: string)
    ensures Unescape(EscapeChar(c) + rest) == [c] + Unescape(rest)
  {
    var e := EscapeChar(c);
    assert (e + rest)[|e|..] == rest;
    if IsControl(c) {
      HexIsPlain(c as int / 16);
      HexIsPlain(c as int % 16);
      assert (e + rest)[4..] == rest;
    } else if c == '\\' || c == '|' {
      assert (e + rest)[2..] == rest;
    } else {
      assert (e + rest)[1..] == rest;
    }
  }

  /** Unescaping inverts escaping, and what follows is left to itself. */
  lemma {:induction false} EscapeRoundTrip(s: string, rest: string)
    ensures Unescape(Escape(s) + rest) == s + Unescape(rest)
    decreases |s|
  {
    hide EscapeChar, Unescape;
    if s == [] {
      assert Escape(s) + rest == rest;
    } else {
      assert Escape(s) + rest == EscapeChar(s[0]) + (Escape(s[1..]) + rest);
      UnescapeOne(s[0], Escape(s[1..]) + rest);
      EscapeRoundTrip(s[1..], rest);
      assert [s[0]] + (s[1..] + Unescape(rest)) == s + Unescape(rest);
    }
  }

  // ---- Fields ----

  /** Scanned with escapes in mind, `f` ends where it ends and holds no delimiter. */
  predicate Closed(f: string) {
    f == [] ||
    if f[0] == '\\' then |f| >= 2 && Closed(f[2..]) else f[0] != '|' && Closed(f[1..])
  }

  predicate Clean(f: string) { forall c :: c in f ==> c >= ' ' && c as int != 127 }

  lemma {:induction false} ClosedConcat(a: string, b: string)
    requires Closed(a) && Closed(b)
    ensures Closed(a + b)
    decreases |a|
  {
    if a == [] {
      assert a + b == b;
    } else if a[0] == '\\' {
      assert (a + b)[2..] == a[2..] + b;
      ClosedConcat(a[2..], b);
    } else {
      assert (a + b)[1..] == a[1..] + b;
      ClosedConcat(a[1..], b);
    }
  }

  lemma {:induction false} EscapeIsClosed(s: string)
    ensures Closed(Escape(s)) && Clean(Escape(s))
    decreases |s|
  {
    if s != [] {
      var e := EscapeChar(s[0]);
      EscapeIsClosed(s[1..]);
      EscapeCharIsClosed(s[0]);
      ClosedConcat(e, Escape(s[1..]));
    }
  }

  lemma EscapeCharIsClosed(c: char)
    ensures Closed(EscapeChar(c)) && Clean(EscapeChar(c))
  {
    var e := EscapeChar(c);
    if IsControl(c) {
      HexIsPlain(c as int / 16);
      HexIsPlain(c as int % 16);
      assert [e[3]][1..] == [] && Closed([e[3]]);
      assert [e[2], e[3]][1..] == [e[3]] && Closed([e[2], e[3]]);
      assert e[2..] == [e[2], e[3]];
    } else if c == '\\' || c == '|' {
      assert e[2..] == [];
    } else {
      assert e[1..] == [];
    }
  }

  lemma HexIsPlain(n: nat)
    requires n < 16
    ensures HexValue(Crc.HEX[n]) == n && Crc.HEX[n] != '\\' && Crc.HEX[n] != '|' && !IsControl(Crc.HEX[n])
  {
  }

  /** An escape-aware reader of the line: a delimiter ends a field unless a backslash stands before it. */
  function Split(s: string, field: string): seq<string>
    decreases |s|
  {
    if s == [] then [field]
    else if s[0] == '|' then [field] + Split(s[1..], [])
    else if s[0] == '\\' && |s| >= 2 then Split(s[2..], field + s[..2])
    else Split(s[1..], field + [s[0]])
  }

  lemma {:induction false} SplitField(f: string, rest: string, field: string)
    requires Closed(f)
    ensures Split(f + rest, field) == Split(rest, field + f)
    decreases |f|
  {
    if f == [] {
      assert f + rest == rest && field + f == field;
    } else if f[0] == '\\' {
      assert (f + rest)[2..] == f[2..] + rest && (f + rest)[..2] == f[..2];
      SplitField(f[2..], rest, field + f[..2]);
      assert field + f[..2] + f[2..] == field + f;
    } else {
      assert (f + rest)[1..] == f[1..] + rest;
      SplitField(f[1..], rest, field + [f[0]]);
      assert field + [f[0]] + f[1..] == field + f;
    }
  }

  function JoinFields(fs: seq<string>): string
    requires fs != []
  {
    if |fs| == 1 then fs[0] else fs[0] + "|" + JoinFields(fs[1..])
  }

  lemma {:induction false} SplitJoins(fs: seq<string>)
    requires fs != [] && forall f :: f in fs ==> Closed(f)
    ensures Split(JoinFields(fs), []) == fs
    decreases |fs|
  {
    assert fs[0] in fs && [] + fs[0] == fs[0];
    if |fs| == 1 {
      SplitField(fs[0], [], []);
      assert fs[0] + [] == fs[0];
    } else {
      var rest := "|" + JoinFields(fs[1..]);
      assert JoinFields(fs) == fs[0] + rest && rest[1..] == JoinFields(fs[1..]);
      SplitField(fs[0], rest, []);
      SplitJoins(fs[1..]);
    }
  }

  // ---- Numbers ----

  function Digits(n: nat): (s: string)
    ensures s != [] && forall c :: c in s ==> '0' <= c <= '9'
  {
    (if n < 10 then [] else Digits(n / 10)) + [Crc.HEX[n % 10]]
  }

  function Decimal(n: int): string { if n < 0 then "-" + Digits(-n) else Digits(n) }

  function DigitsValue(s: string): nat {
    if s == [] then 0 else DigitsValue(s[..|s| - 1]) * 10 + HexValue(s[|s| - 1])
  }

  function DecimalValue(s: string): int {
    if s != [] && s[0] == '-' then 0 - (DigitsValue(s[1..]) as int) else DigitsValue(s) as int
  }

  lemma {:induction false} DigitsRoundTrip(n: nat)
    ensures DigitsValue(Digits(n)) == n
  {
    var s := Digits(n);
    assert HexValue(Crc.HEX[n % 10]) == n % 10;
    if n < 10 {
      assert s[..0] == [];
    } else {
      DigitsRoundTrip(n / 10);
      assert s[..|s| - 1] == Digits(n / 10);
    }
  }

  lemma {:induction false} DecimalReadsBack(n: int)
    ensures DecimalValue(Decimal(n)) == n && Closed(Decimal(n)) && Clean(Decimal(n))
  {
    hide Digits, DigitsValue;
    var m := if n < 0 then -n else n;
    DigitsRoundTrip(m);
    DigitsClosed(Digits(m));
    assert Digits(m)[0] in Digits(m);
    if n < 0 {
      assert Decimal(n)[1..] == Digits(m);
    }
  }

  lemma {:induction false} DigitsClosed(s: string)
    requires forall c :: c in s ==> '0' <= c <= '9'
    ensures Closed(s)
    decreases |s|
  {
    if s != [] {
      assert s[0] in s && forall c :: c in s[1..] ==> c in s;
      DigitsClosed(s[1..]);
    }
  }

  // ---- Lines ----

  function NameField(name: string, target: Option<string>): string {
    Escape(name) + match target case Some(t) => " -> " + Escape(t) case None => ""
  }

  function ModeField(e: EntryRef): string {
    [TypeLetter(e.kind), '/', TypeLetter(e.kind)] + PermString(e.inode.mode)
  }

  function LineFields(e: EntryRef, name: string, target: Option<string>): (fs: seq<string>)
    ensures |fs| == 11
  {
    ["0", NameField(name, target), "0", ModeField(e), Decimal(e.inode.uid), Decimal(e.inode.gid),
     Decimal(e.fields.size),
     Decimal(e.inode.atime), Decimal(e.inode.mtime), Decimal(match e.inode.ctime case Some(t) => t case None => 0), "0"]
  }

  /** The text of raw bytes, as the lossy projection gives it; any function serves. */
  type Lossy = seq<byte> -> string

  function LineOf(e: EntryRef, lossy: Lossy): string {
    JoinFields(LineFields(e, lossy(e.path), match e.target case Some(t) => Some(lossy(t)) case None => None))
  }

  method Line(e: EntryRef, lossy: Lossy) returns (text: string)
    ensures text == LineOf(e, lossy)
  {
    var perms := Permissions(e.inode.mode);
    var mode := [TypeLetter(e.kind), '/', TypeLetter(e.kind)] + perms;
    var name := EscapeName(lossy(e.path));
    if e.target.Some? {
      var target := EscapeName(lossy(e.target.value));
      name := name + " -> " + target;
      assert name == Escape(lossy(e.path)) + (" -> " + target);
    } else {
      assert name + "" == name;
    }
    var ctime := if e.inode.ctime.Some? then e.inode.ctime.value else 0;
    text := JoinFields(["0", name, "0", mode, Decimal(e.inode.uid), Decimal(e.inode.gid), Decimal(e.fields.size),
                        Decimal(e.inode.atime), Decimal(e.inode.mtime), Decimal(ctime), "0"]);
  }

  lemma {:induction false} PlainIsClosed(s: string)
    requires '|' !in s && '\\' !in s
    ensures Closed(s)
    decreases |s|
  {
    if s != [] {
      assert s[0] in s && forall c :: c in s[1..] ==> c in s;
      PlainIsClosed(s[1..]);
    }
  }

  predicate IsModeLetter(c: char) { 'a' <= c <= 'z' || 'A' <= c <= 'Z' || c == '-' }

  lemma {:induction false} ModeFieldClosed(e: EntryRef)
    ensures Closed(ModeField(e)) && Clean(ModeField(e))
  {
    hide Bit;
    var perms := PermString(e.inode.mode);
    forall i | 0 <= i < 9
      ensures IsModeLetter(perms[i])
    {
      assert perms[i] == Slot(e.inode.mode, i) && RWX[i % 3] in RWX;
    }
    assert forall c :: c in ModeField(e) ==> c == TypeLetter(e.kind) || c == '/' || c in perms;
    PlainIsClosed(ModeField(e));
  }

  lemma {:induction false} NameFieldClosed(name: string, target: Option<string>)
    ensures Closed(NameField(name, target)) && Clean(NameField(name, target))
    ensures Unescape(NameField(name, target)) == name + match target case Some(t) => " -> " + t case None => ""
  {
    hide EscapeChar;
    EscapeIsClosed(name);
    if target.Some? {
      EscapeIsClosed(target.value);
      ArrowIsClosed(Escape(target.value));
      ClosedConcat(Escape(name), " -> " + Escape(target.value));
      EscapeRoundTrip(name, " -> " + Escape(target.value));
      EscapeRoundTrip(target.value, "");
      assert Escape(target.value) + "" == Escape(target.value) && target.value + "" == target.value;
    } else {
      EscapeRoundTrip(name, "");
      assert Escape(name) + "" == Escape(name);
    }
  }

  lemma PlainFirst(c: char, s: string)
    requires c != '\\' && c != '|' && c >= ' ' && c as int != 127 && Closed(s) && Clean(s)
    ensures Closed([c] + s) && Clean([c] + s) && Unescape([c] + s) == [c] + Unescape(s)
  {
    assert ([c] + s)[1..] == s;
  }

  lemma ArrowIsClosed(s: string)
    requires Closed(s) && Clean(s)
    ensures Closed(" -> " + s) && Clean(" -> " + s) && Unescape(" -> " + s) == " -> " + Unescape(s)
  {
    hide Closed, Clean, Unescape;
    PlainFirst(' ', s);
    PlainFirst('>', " " + s);
    PlainFirst('-', ">" + (" " + s));
    PlainFirst(' ', "-" + (">" + (" " + s)));
    assert " -> " + s == " " + ("-" + (">" + (" " + s)));
    assert " -> " + Unescape(s) == " " + ("-" + (">" + (" " + Unescape(s))));
  }

  lemma {:induction false} JoinIsClean(fs: seq<string>)
    requires fs != [] && forall f :: f in fs ==> Clean(f)
    ensures Clean(JoinFields(fs))
    decreases |fs|
  {
    assert fs[0] in fs;
    if |fs| > 1 {
      assert forall f :: f in fs[1..] ==> f in fs;
      JoinIsClean(fs[1..]);
    }
  }

  /**
   * Any line splits back into its eleven fields, and the fields into the entry's own values, name and target
   * joined by their arrow: no name, however crafted, can forge a field or a further line.
   */
  lemma {:induction false} LineParsesBack(e: EntryRef, lossy: Lossy)
    ensures Clean(LineOf(e, lossy))
    ensures var f := Split(LineOf(e, lossy), []);
            && |f| == 11
            && Unescape(f[1]) == lossy(e.path) + (match e.target case Some(t) => " -> " + lossy(t) case None => "")
            && f[3] == ModeField(e)
            && DecimalValue(f[4]) == e.inode.uid && DecimalValue(f[5]) == e.inode.gid
            && DecimalValue(f[6]) == e.fields.size
            && DecimalValue(f[7]) == e.inode.atime && DecimalValue(f[8]) == e.inode.mtime
            && DecimalValue(f[9]) == (match e.inode.ctime case Some(t) => t case None => 0)
            && f[0] == f[2] == f[10] == "0"
  {
    hide Closed, Clean, Unescape, Escape, ModeField, Decimal, DecimalValue, Split, JoinFields;
    var name, target := lossy(e.path), match e.target case Some(t) => Some(lossy(t)) case None => None;
    NameFieldClosed(name, target);
    ModeFieldClosed(e);
    DecimalReadsBack(e.inode.uid);
    DecimalReadsBack(e.inode.gid);
    DecimalReadsBack(e.fields.size);
    DecimalReadsBack(e.inode.atime);
    DecimalReadsBack(e.inode.mtime);
    DecimalReadsBack(match e.inode.ctime case Some(t) => t case None => 0);
    ZeroIsClosed();
    SplitJoins(LineFields(e, name, target));
    JoinIsClean(LineFields(e, name, target));
  }

  // ---- Name and target of a link ----

  const ARROW := " -> "

  function LinkText(name: string, target: string): string { name + ARROW + target }

  /** The first arrow at or after `i`. */
  function ArrowFrom(s: string, i: nat): (r: Option<nat>)
    ensures r.Some? ==> i <= r.value && At(s, r.value, ARROW)
    ensures forall j :: i <= j && (r.Some? ==> j < r.value) ==> !At(s, j, ARROW)
    decreases |s| - i
  {
    if i + |ARROW| > |s| then None else if s[i..i + |ARROW|] == ARROW then Some(i) else ArrowFrom(s, i + 1)
  }

  /** A reader that takes the first arrow for the one between name and target. */
  function ReadLink(s: string): (string, Option<string>) {
    match ArrowFrom(s, 0)
    case Some(i) => (s[..i], Some(s[i + |ARROW|..]))
    case None => (s, None)
  }

  lemma LinkParts(name: string, target: string)
    ensures var s := LinkText(name, target);
            && At(s, |name|, ARROW) && s[..|name|] == name && s[|name| + |ARROW|..] == target
  {
  }

  lemma ArrowSplits(s: string, i: nat)
    requires At(s, i, ARROW)
    ensures LinkText(s[..i], s[i + |ARROW|..]) == s
  {
    assert s == s[..i] + s[i..i + |ARROW|] + s[i + |ARROW|..];
  }

  /** Name and target are what their joined text says, and nothing else is, exactly when it holds one arrow only. */
  lemma {:induction false} LinkIsUniqueIff(name: string, target: string)
    ensures (forall n: string, t: string :: LinkText(n, t) == LinkText(name, target) ==> n == name && t == target)
            <==> forall i: nat :: At(LinkText(name, target), i, ARROW) ==> i == |name|
  {
    hide At, LinkText;
    var s := LinkText(name, target);
    if forall i: nat :: At(s, i, ARROW) ==> i == |name| {
      forall n: string, t: string | LinkText(n, t) == s
        ensures n == name && t == target
      {
        LinkParts(n, t);
        LinkParts(name, target);
      }
    } else {
      var i: nat :| At(s, i, ARROW) && i != |name|;
      AtWithin(s, i, ARROW);
      ArrowSplits(s, i);
      assert LinkText(s[..i], s[i + |ARROW|..]) == s && |s[..i]| == i;
    }
  }

  lemma EarlierArrow(name: string, target: string, i: nat)
    requires i < |name|
    ensures At(LinkText(name, target), i, ARROW) <==> At(name + ARROW, i, ARROW)
  {
    var s, t := LinkText(name, target), name + ARROW;
    assert s[i..i + |ARROW|] == t[i..i + |ARROW|];
  }

  /**
   * From the line of a link, its name and target are read off at the first arrow exactly when no arrow
   * begins inside the name.
   */
  lemma {:induction false} LinkReadsOffIff(e: EntryRef, lossy: Lossy)
    requires e.target.Some?
    ensures var f, name := Split(LineOf(e, lossy), []), lossy(e.path);
            |f| == 11 && (ReadLink(Unescape(f[1])) == (name, Some(lossy(e.target.value)))
                          <==> forall i :: 0 <= i < |name| ==> !At(name + ARROW, i, ARROW))
  {
    hide Split, LineOf, Unescape, LinkText, At, ArrowFrom;
    var name, target := lossy(e.path), lossy(e.target.value);
    LineParsesBack(e, lossy);
    assert name + (" -> " + target) == LinkText(name, target) by { Joined(name, target); }
    LinkParts(name, target);
    forall i | 0 <= i < |name|
      ensures At(LinkText(name, target), i, ARROW) <==> At(name + ARROW, i, ARROW)
    {
      EarlierArrow(name, target, i);
    }
    var first := ArrowFrom(LinkText(name, target), 0);
    assert first.Some? && first.value <= |name|;
  }

  lemma Joined(name: string, target: string)
    ensures name + (" -> " + target) == LinkText(name, target)
  {
  }

  /** Two links, alike but for name and target, that leave the same line. */
  lemma {:induction false} ArrowExample(e: EntryRef, e': EntryRef, lossy: Lossy)
    requires e'.(path := e.path, target := e.target) == e && e.target.Some? && e'.target.Some?
    requires lossy(e.path) == "a" && lossy(e.target.value) == "b -> c"
    requires lossy(e'.path) == "a -> b" && lossy(e'.target.value) == "c"
    ensures LineOf(e, lossy) == LineOf(e', lossy)
  {
    hide ModeField, Decimal, JoinFields, NameField;
    SameName();
    SameMode(e, e');
  }

  lemma {:induction false} SameName()
    ensures NameField("a", Some("b -> c")) == NameField("a -> b", Some("c"))
  {
    hide Escape;
    PlainEscapes("a");
    PlainEscapes("b -> c");
    PlainEscapes("a -> b");
    PlainEscapes("c");
    assert "a" + (" -> " + "b -> c") == "a -> b" + (" -> " + "c");
  }

  lemma SameMode(e: EntryRef, e': EntryRef)
    requires e.kind == e'.kind && e.inode == e'.inode
    ensures ModeField(e) == ModeField(e')
  {
  }

  lemma PlainStays(c: char)
    requires c != '|' && c != '\\' && !IsControl(c)
    ensures EscapeChar(c) == [c]
  {
  }

  lemma {:induction false} PlainEscapes(s: string)
    requires '|' !in s && '\\' !in s && Clean(s)
    ensures Escape(s) == s
    decreases |s|
  {
    hide EscapeChar;
    if s != [] {
      assert s[0] in s && forall c :: c in s[1..] ==> c in s;
      PlainEscapes(s[1..]);
      PlainStays(s[0]);
      assert s == [s[0]] + s[1..];
    }
  }

  lemma ZeroIsClosed()
    ensures Closed("0") && Clean("0")
  {
    assert "0"[1..] == [];
  }

  // ---- The whole file ----

  function Lines(entries: seq<EntryRef>, lossy: Lossy): seq<string> {
    if entries == [] then [] else Lines(entries[..|entries| - 1], lossy) + [LineOf(entries[|entries| - 1], lossy)]
  }

  function Terminated(ls: seq<string>): string {
    if ls == [] then [] else Terminated(ls[..|ls| - 1]) + ls[|ls| - 1] + "\n"
  }

  method WriteBodyfile(entries: seq<EntryRef>, lossy: Lossy) returns (out: string)
    ensures out == Terminated(Lines(entries, lossy))
  {
    hide LineOf;
    out := "";
    for i := 0 to |entries|
      invariant out == Terminated(Lines(entries[..i], lossy))
    {
      assert entries[..i + 1][..i] == entries[..i];
      var text := Line(entries[i], lossy);
      var ls := Lines(entries[..i], lossy);
      assert (ls + [text])[..|ls|] == ls;
      out := out + text + "\n";
    }
    assert entries[..|entries|] == entries;
  }

  /** The lines of a text in which every line is terminated. */
  function LinesIn(s: string, line: string): seq<string>
    decreases |s|
  {
    if s == [] then [] else if s[0] == '\n' then [line] + LinesIn(s[1..], []) else LinesIn(s[1..], line + [s[0]])
  }

  lemma {:induction false} LineRead(l: string, rest: string, line: string)
    requires Clean(l)
    ensures LinesIn(l + "\n" + rest, line) == [line + l] + LinesIn(rest, [])
    decreases |l|
  {
    var s := l + "\n" + rest;
    if l == [] {
      assert s[1..] == rest && line + l == line;
    } else {
      assert s[0] == l[0] && l[0] in l && s[1..] == l[1..] + "\n" + rest && forall c :: c in l[1..] ==> c in l;
      LineRead(l[1..], rest, line + [l[0]]);
      assert line + [l[0]] + l[1..] == line + l;
    }
  }

  lemma {:induction false} LinesRead(ls: seq<string>, rest: string)
    requires forall l :: l in ls ==> Clean(l)
    ensures LinesIn(Terminated(ls) + rest, []) == ls + LinesIn(rest, [])
    decreases |ls|
  {
    hide Clean;
    if ls == [] {
      assert Terminated(ls) + rest == rest;
    } else {
      var init, last := ls[..|ls| - 1], ls[|ls| - 1];
      assert Terminated(ls) + rest == Terminated(init) + (last + "\n" + rest);
      LinesRead(init, last + "\n" + rest);
      LineRead(last, rest, []);
      assert [] + last == last;
      assert init + ([last] + LinesIn(rest, [])) == ls + LinesIn(rest, []);
    }
  }

  /** The file holds one line an entry, in catalogue order, and no other. */
  lemma {:induction false} BodyfileReadsBack(entries: seq<EntryRef>, lossy: Lossy)
    ensures LinesIn(Terminated(Lines(entries, lossy)), []) == Lines(entries, lossy)
    ensures |Lines(entries, lossy)| == |entries|
  {
    hide LineOf, Clean;
    LinesAreClean(entries, lossy);
    LinesRead(Lines(entries, lossy), []);
    assert Terminated(Lines(entries, lossy)) + [] == Terminated(Lines(entries, lossy));
  }

  lemma {:induction false} LinesAreClean(entries: seq<EntryRef>, lossy: Lossy)
    ensures |Lines(entries, lossy)| == |entries| && forall l :: l in Lines(entries, lossy) ==> Clean(l)
    decreases |entries|
  {
    hide LineOf, Clean;
    if entries != [] {
      LinesAreClean(entries[..|entries| - 1], lossy);
      LineParsesBack(entries[|entries| - 1], lossy);
    }
  }
}
