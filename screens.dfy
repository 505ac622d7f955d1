/**
 * The input validators of the device dialogs (`isValidMacAddress`, `isValidIpAddress`,
 * `inferBroadcastAddress`) and the save logic of the edit and add dialogs, which
 * normalises the form fields into a `Device` or refuses to save.
 */
module Screens {
  import opened Wrappers
  import opened KotlinText
  import opened Schema

  // ---------------------------------------------------------------------------
  // MAC addresses
  // ---------------------------------------------------------------------------

  predicate IsHexChar(c: char) {
    ('0' <= c <= '9') || ('a' <= c <= 'f') || ('A' <= c <= 'F')
  }

  predicate IsMacSeparator(c: char) { c == ':' || c == '-' || c == ' ' }

  /** `s` with every `c` removed. */
  function RemoveChar(s: string, c: char): (r: string)
    ensures |r| <= |s|
    ensures forall x :: x in r <==> x in s && x != c
  {
    if |s| == 0 then ""
    else
      assert s == [s[0]] + s[1..];
      (if s[0] == c then "" else [s[0]]) + RemoveChar(s[1..], c)
  }

  /** Replacing a one-character string by nothing removes that character. */
  lemma {:induction false} ReplaceCharIsRemove(s: string, c: char)
    ensures ReplaceAll(s, [c], "") == RemoveChar(s, c)
    decreases |s|
  {
    if |s| > 0 {
      ReplaceCharIsRemove(s[1..], c);
      if s[0] == c {
        assert StartsWith(s, [c]);
        assert s[|[c]|..] == s[1..];
      } else {
        assert !StartsWith(s, [c]);
      }
    }
  }

  lemma {:induction false} RemoveCharCommutes(s: string, a: char, b: char)
    ensures RemoveChar(RemoveChar(s, a), b) == RemoveChar(RemoveChar(s, b), a)
    decreases |s|
  {
    if |s| > 0 {
      RemoveCharCommutes(s[1..], a, b);
      assert RemoveChar(RemoveChar(s, a), b)
        == RemoveChar(RemoveChar([s[0]], a), b) + RemoveChar(RemoveChar(s[1..], a), b)
      by {
        RemoveCharAppend([s[0]], s[1..], a);
        RemoveCharAppend(RemoveChar([s[0]], a), RemoveChar(s[1..], a), b);
        assert [s[0]] + s[1..] == s;
      }
      assert RemoveChar(RemoveChar(s, b), a)
        == RemoveChar(RemoveChar([s[0]], b), a) + RemoveChar(RemoveChar(s[1..], b), a)
      by {
        RemoveCharAppend([s[0]], s[1..], b);
        RemoveCharAppend(RemoveChar([s[0]], b), RemoveChar(s[1..], b), a);
        assert [s[0]] + s[1..] == s;
      }
    }
  }

  lemma {:induction false} RemoveCharAppend(x: string, y: string, c: char)
    ensures RemoveChar(x + y, c) == RemoveChar(x, c) + RemoveChar(y, c)
    decreases |x|
  {
    if |x| > 0 {
      assert (x + y)[0] == x[0];
      assert (x + y)[1..] == x[1..] + y;
      RemoveCharAppend(x[1..], y, c);
      var h := if x[0] == c then "" else [x[0]];
      assert RemoveChar(x + y, c) == h + RemoveChar(x[1..] + y, c);
      assert RemoveChar(x, c) == h + RemoveChar(x[1..], c);
    } else {
      assert x + y == y;
    }
  }

  lemma RemoveCharAbsent(s: string, c: char)
    requires c !in s
    ensures RemoveChar(s, c) == s
  {
    if |s| > 0 {
      RemoveCharAbsent(s[1..], c);
      assert [s[0]] + s[1..] == s;
    }
  }

  /** `mac.replace(":", "").replace("-", "").replace(" ", "")`. */
  function CleanMac(mac: string): (r: string)
    ensures forall x :: x in r <==> x in mac && !IsMacSeparator(x)
  {
    RemoveChar(RemoveChar(RemoveChar(mac, ':'), '-'), ' ')
  }

  lemma CleanMacIsReplaceChain(mac: string)
    ensures CleanMac(mac) == ReplaceAll(ReplaceAll(ReplaceAll(mac, ":", ""), "-", ""), " ", "")
  {
    ReplaceCharIsRemove(mac, ':');
    ReplaceCharIsRemove(RemoveChar(mac, ':'), '-');
    ReplaceCharIsRemove(RemoveChar(RemoveChar(mac, ':'), '-'), ' ');
  }

  lemma CleanMacAppend(x: string, y: string)
    ensures CleanMac(x + y) == CleanMac(x) + CleanMac(y)
  {
    RemoveCharAppend(x, y, ':');
    RemoveCharAppend(RemoveChar(x, ':'), RemoveChar(y, ':'), '-');
    RemoveCharAppend(RemoveChar(RemoveChar(x, ':'), '-'), RemoveChar(RemoveChar(y, ':'), '-'), ' ');
  }

  /** `^[0-9A-Fa-f]{12}$`. */
  predicate IsTwelveHex(s: string) {
    |s| == 12 && forall i :: 0 <= i < |s| ==> IsHexChar(s[i])
  }

  /** `isValidMacAddress`: with `:`, `-` and spaces removed, exactly twelve hex digits remain. */
  predicate IsValidMacAddress(mac: string) {
    IsTwelveHex(CleanMac(mac))
  }

  /** A valid MAC address is never blank, so the add dialog's `isNotBlank` test adds nothing. */
  lemma ValidMacIsNotBlank(mac: string)
    requires IsValidMacAddress(mac)
    ensures !IsBlank(mac)
  {
    var r := CleanMac(mac);
    assert r[0] in r;
    assert r[0] in mac;
  }

  /** The edit dialog's MAC field: `it.replace(" ", "").replace(":", "").replace("-", "")`. */
  function EditMacInput(input: string): string {
    ReplaceAll(ReplaceAll(ReplaceAll(input, " ", ""), ":", ""), "-", "")
  }

  /**
   * The edit field keeps exactly the characters `CleanMac` keeps, so typing into it
   * never changes whether the text is a valid MAC, and a second pass changes nothing.
   */
  lemma EditMacInputIsCleanMac(input: string)
    ensures EditMacInput(input) == CleanMac(input)
    ensures IsValidMacAddress(EditMacInput(input)) == IsValidMacAddress(input)
    ensures EditMacInput(EditMacInput(input)) == EditMacInput(input)
  {
    ReplaceCharIsRemove(input, ' ');
    ReplaceCharIsRemove(RemoveChar(input, ' '), ':');
    ReplaceCharIsRemove(RemoveChar(RemoveChar(input, ' '), ':'), '-');
    var r := CleanMac(input);
    calc {
      EditMacInput(input);
      RemoveChar(RemoveChar(RemoveChar(input, ' '), ':'), '-');
      { RemoveCharCommutes(input, ' ', ':'); }
      RemoveChar(RemoveChar(RemoveChar(input, ':'), ' '), '-');
      { RemoveCharCommutes(RemoveChar(input, ':'), ' ', '-'); }
      r;
    }
    assert ':' !in r && '-' !in r && ' ' !in r;
    RemoveCharAbsent(r, ':');
    RemoveCharAbsent(r, '-');
    RemoveCharAbsent(r, ' ');
    assert CleanMac(r) == r;
    ReplaceCharIsRemove(r, ' ');
    ReplaceCharIsRemove(r, ':');
    ReplaceCharIsRemove(r, '-');
  }

  const AddMacMaxChars: nat := 17

  /**
   * The add dialog's MAC field: an edit is taken only when the new text's `length`, in
   * UTF-16 code units, is at most 17.
   */
  function AddMacInput(current: string, input: string): (r: string)
    ensures Utf16Length(current) <= AddMacMaxChars ==> Utf16Length(r) <= AddMacMaxChars
    ensures r == input <==> Utf16Length(input) <= AddMacMaxChars || input == current
  {
    if Utf16Length(input) <= AddMacMaxChars then input else current
  }

  /** Sixteen hex digits and an emoji are 17 characters but 18 code units, so the edit is refused. */
  lemma AddMacInputCountsCodeUnits()
    ensures AddMacInput("", "0123456789ABCDEF" + [0x1F600 as char]) == ""
  {
    var input := "0123456789ABCDEF" + [0x1F600 as char];
    assert input[..|input| - 1] == "0123456789ABCDEF";
    assert Utf16Length("0123456789ABCDEF") == 16;
  }

  // ---------------------------------------------------------------------------
  // IPv4 addresses
  // ---------------------------------------------------------------------------

  /**
   * One repetition of `(25[0-5]|(2[0-4]|1\d|[1-9]|)\d)`: a decimal number 0..255
   * without a leading zero.
   */
  predicate IsOctet(t: string) {
    (|t| == 1 && IsDigit(t[0]))
    || (|t| == 2 && '1' <= t[0] <= '9' && IsDigit(t[1]))
    || (|t| == 3 && t[0] == '1' && IsDigit(t[1]) && IsDigit(t[2]))
    || (|t| == 3 && t[0] == '2' && '0' <= t[1] <= '4' && IsDigit(t[2]))
    || (|t| == 3 && t[0] == '2' && t[1] == '5' && '0' <= t[2] <= '5')
  }

  /**
   * `^((25[0-5]|(2[0-4]|1\d|[1-9]|)\d)(\.(?!$)|$)){4}$` as a predicate on the pieces
   * between dots: exactly four pieces, each an octet.
   */
  predicate IsDottedQuad(s: string) {
    var p := Split(s, '.');
    |p| == 4 && IsOctet(p[0]) && IsOctet(p[1]) && IsOctet(p[2]) && IsOctet(p[3])
  }

  /** `isValidIpAddress(ip: String?)`: false for null. */
  predicate IsValidIpAddress(ip: Option<string>) {
    ip.Some? && IsDottedQuad(ip.value)
  }

  /** The dotted-quad text of four numbers. */
  function FormatIp(a: nat, b: nat, c: nat, d: nat): string {
    Dec(a) + "." + Dec(b) + "." + Dec(c) + "." + Dec(d)
  }

  lemma DecHasNoDot(n: nat)
    ensures '.' !in Dec(n)
  {
    DecIsCanonical(n);
  }

  lemma DecimalValueOfThree(t: string)
    requires |t| == 3 && AllDigits(t)
    ensures DecimalValue(t) == DigitValue(t[0]) * 100 + DigitValue(t[1]) * 10 + DigitValue(t[2])
  {
    assert DecimalValue(t) == DecimalValue(t[..2]) * 10 + DigitValue(t[2]);
    assert t[..2][..1] == t[..1];
    assert t[..2][1] == t[1];
    assert DecimalValue(t[..2]) == DecimalValue(t[..1]) * 10 + DigitValue(t[1]);
    assert t[..1][..0] == [];
    assert DecimalValue(t[..1]) == DigitValue(t[0]);
  }

  lemma DecimalValueOfTwo(t: string)
    requires |t| == 2 && AllDigits(t)
    ensures DecimalValue(t) == DigitValue(t[0]) * 10 + DigitValue(t[1])
  {
    assert DecimalValue(t) == DecimalValue(t[..1]) * 10 + DigitValue(t[1]);
    assert t[..1][..0] == [];
    assert DecimalValue(t[..1]) == DigitValue(t[0]);
  }

  /** An octet is the decimal text of a number no larger than 255. */
  lemma OctetIsDec(t: string)
    requires IsOctet(t)
    ensures AllDigits(t)
    ensures DecimalValue(t) <= 255 && Dec(DecimalValue(t)) == t
  {
    if |t| == 3 {
      DecimalValueOfThree(t);
    } else if |t| == 2 {
      DecimalValueOfTwo(t);
    } else {
      assert t[..0] == [];
    }
    CanonicalDecimalIsDec(t);
  }

  /** The decimal text of every number up to 255 is an octet. */
  lemma DecIsOctet(n: nat)
    requires n <= 255
    ensures IsOctet(Dec(n))
  {
    if n >= 100 {
      assert Dec(n) == Dec(n / 10) + [DigitChar(n % 10)];
      assert Dec(n / 10) == Dec(n / 100) + [DigitChar((n / 10) % 10)];
      assert Dec(n / 100) == [DigitChar(n / 100)];
    } else if n >= 10 {
      assert Dec(n) == Dec(n / 10) + [DigitChar(n % 10)];
      assert Dec(n / 10) == [DigitChar(n / 10)];
    }
  }

  /** Four numbers up to 255, written with dots, form a valid address whose pieces are those numbers. */
  lemma FormatIpIsDottedQuad(a: nat, b: nat, c: nat, d: nat)
    requires a <= 255 && b <= 255 && c <= 255 && d <= 255
    ensures Split(FormatIp(a, b, c, d), '.') == [Dec(a), Dec(b), Dec(c), Dec(d)]
    ensures IsDottedQuad(FormatIp(a, b, c, d))
  {
    DecHasNoDot(a);
    DecHasNoDot(b);
    DecHasNoDot(c);
    DecHasNoDot(d);
    SplitFour(Dec(a), Dec(b), Dec(c), Dec(d), '.');
    DecIsOctet(a);
    DecIsOctet(b);
    DecIsOctet(c);
    DecIsOctet(d);
  }

  /** Every valid address is four numbers up to 255 written with dots. */
  lemma DottedQuadIsFormatted(s: string) returns (a: nat, b: nat, c: nat, d: nat)
    requires IsDottedQuad(s)
    ensures a <= 255 && b <= 255 && c <= 255 && d <= 255
    ensures s == FormatIp(a, b, c, d)
  {
    var p := Split(s, '.');
    FourPieces(s, '.');
    OctetIsDec(p[0]);
    OctetIsDec(p[1]);
    OctetIsDec(p[2]);
    OctetIsDec(p[3]);
    a, b, c, d := DecimalValue(p[0]), DecimalValue(p[1]), DecimalValue(p[2]), DecimalValue(p[3]);
    assert Dec(a) == p[0] && Dec(b) == p[1] && Dec(c) == p[2] && Dec(d) == p[3];
    assert "." == ['.'];
  }

  /**
   * `isValidIpAddress` holds exactly for four numbers 0..255, written in decimal without
   * leading zeros (except `0` itself) and separated by single dots.
   */
  lemma ValidIpIffFormatted(s: string)
    ensures IsDottedQuad(s) <==>
      exists a: nat, b: nat, c: nat, d: nat :: a <= 255 && b <= 255 && c <= 255 && d <= 255 && s == FormatIp(a, b, c, d)
  {
    if IsDottedQuad(s) {
      var a, b, c, d := DottedQuadIsFormatted(s);
    }
    if exists a: nat, b: nat, c: nat, d: nat :: a <= 255 && b <= 255 && c <= 255 && d <= 255 && s == FormatIp(a, b, c, d) {
      var a: nat, b: nat, c: nat, d: nat :| a <= 255 && b <= 255 && c <= 255 && d <= 255 && s == FormatIp(a, b, c, d);
      FormatIpIsDottedQuad(a, b, c, d);
    }
  }

  lemma ValidIpIsNotBlank(s: string)
    requires IsDottedQuad(s)
    ensures !IsBlank(s)
  {
    var p := Split(s, '.');
    FourPieces(s, '.');
    assert s[0] == p[0][0];
  }

  /** `inferBroadcastAddress`: the first three octets followed by `.255`, or null for an invalid address. */
  function InferBroadcastAddress(ip: Option<string>): (r: Option<string>)
    ensures r.Some? <==> IsValidIpAddress(ip)
  {
    if ip.None? || !IsValidIpAddress(ip) then None
    else
      var parts := Split(ip.value, '.');
      if |parts| == 4 then Some(parts[0] + "." + parts[1] + "." + parts[2] + ".255") else None
  }

  lemma DecOf255()
    ensures Dec(255) == "255"
  {
    assert Dec(255) == Dec(25) + [DigitChar(5)];
    assert Dec(25) == Dec(2) + [DigitChar(5)];
  }

  /** The broadcast address of `a.b.c.d` is `a.b.c.255`. */
  lemma InferBroadcastOfFormatted(a: nat, b: nat, c: nat, d: nat)
    requires a <= 255 && b <= 255 && c <= 255 && d <= 255
    ensures InferBroadcastAddress(Some(FormatIp(a, b, c, d))) == Some(FormatIp(a, b, c, 255))
  {
    FormatIpIsDottedQuad(a, b, c, d);
    DecOf255();
    assert Dec(a) + "." + Dec(b) + "." + Dec(c) + ".255" == FormatIp(a, b, c, 255);
  }

  /** An inferred broadcast address is itself a valid address, and inferring again returns it unchanged. */
  lemma InferBroadcastIsValidAndIdempotent(ip: Option<string>)
    requires InferBroadcastAddress(ip).Some?
    ensures IsValidIpAddress(InferBroadcastAddress(ip))
    ensures InferBroadcastAddress(InferBroadcastAddress(ip)) == InferBroadcastAddress(ip)
  {
    var a, b, c, d := DottedQuadIsFormatted(ip.value);
    InferBroadcastOfFormatted(a, b, c, d);
    FormatIpIsDottedQuad(a, b, c, 255);
    InferBroadcastOfFormatted(a, b, c, 255);
  }

  /** A host address infers the `.255` address of its /24. */
  lemma InferBroadcastExamples()
    ensures InferBroadcastAddress(Some("10.0.0.42")) == Some("10.0.0.255")
  {
    assert Dec(10) == Dec(1) + [DigitChar(0)];
    assert Dec(42) == Dec(4) + [DigitChar(2)];
    assert FormatIp(10, 0, 0, 42) == "10.0.0.42";
    InferBroadcastOfFormatted(10, 0, 0, 42);
    DecOf255();
    assert FormatIp(10, 0, 0, 255) == "10.0.0.255";
  }

  /** A text with no dots, or no address at all, infers nothing. */
  lemma InferBroadcastRejects()
    ensures InferBroadcastAddress(Some("not-an-ip")) == None
    ensures InferBroadcastAddress(None) == None
  {
    SplitWithoutSeparator("not-an-ip", '.');
  }

  // ---------------------------------------------------------------------------
  // Saving from the edit and add dialogs
  // ---------------------------------------------------------------------------

  /** `Color.toArgb()`: the 32-bit ARGB pattern read as a signed `Int`. */
  function ArgbOf(argb: nat): (r: int)
    requires argb < 0x1_0000_0000
    ensures InInt32(r)
    ensures r % 0x1_0000_0000 == argb
  {
    if argb >= 0x8000_0000 then argb - 0x1_0000_0000 else argb
  }

  /** The colours offered by the edit dialog. */
  const EditPalette: seq<nat> := [
    0xFF29B6F6, 0xFFAB47BC, 0xFFC0CA33, 0xFFFFB74D, 0xFFEF5350, 0xFF26C6DA, 0xFF7E57C2,
    0xFF888888, 0xFF000000, 0xFFFFFFFF, 0x00000000
  ]

  /** The colours offered by the add dialog (the edit palette without transparent). */
  const AddPalette: seq<nat> := [
    0xFF29B6F6, 0xFFAB47BC, 0xFFC0CA33, 0xFFFFB74D, 0xFFEF5350, 0xFF26C6DA, 0xFF7E57C2,
    0xFF888888, 0xFF000000, 0xFFFFFFFF
  ]

  predicate IsPalette(palette: seq<nat>) {
    forall i :: 0 <= i < |palette| ==> palette[i] < 0x1_0000_0000
  }

  /** `availableColors.indexOfFirst { it.toArgb() == color }.takeIf { it != -1 } ?: 0`. */
  function ColorIndex(palette: seq<nat>, color: int): (i: nat)
    requires IsPalette(palette) && |palette| > 0
    ensures i < |palette|
    ensures (exists j :: 0 <= j < |palette| && ArgbOf(palette[j]) == color) ==>
      ArgbOf(palette[i]) == color && forall j :: 0 <= j < i ==> ArgbOf(palette[j]) != color
    ensures (forall j :: 0 <= j < |palette| ==> ArgbOf(palette[j]) != color) ==> i == 0
  {
    if ArgbOf(palette[0]) == color || |palette| == 1 then 0
    else
      var k := ColorIndex(palette[1..], color);
      if ArgbOf(palette[1..][k]) == color then k + 1 else 0
  }

  /** `s.ifBlank { default }`. */
  function IfBlank(s: string, default: string): string {
    if IsBlank(s) then default else s
  }

  /** The text fields and selections of the edit dialog. */
  datatype EditForm = EditForm(
    name: string, mac: string, ip: string, wolPort: string, broadcast: string, group: string, colorIndex: nat)

  /**
   * The dialog's group check: a selected group that is not among the database's groups
   * (`groups`, their names in order) is replaced by the first of them, or by `Default` when
   * there are none.
   */
  function SelectedGroup(current: string, groups: seq<string>): (g: string)
    ensures g in groups || (|groups| == 0 && g == "Default")
    ensures current in groups ==> g == current
  {
    if current in groups then current else if |groups| > 0 then groups[0] else "Default"
  }

  /**
   * The edit dialog's fields once it has opened on `device` and its group check has run,
   * with `groups` the names of the database's groups.
   */
  function EditFormOf(device: Device, groups: seq<string>): (f: EditForm)
    ensures f.colorIndex < |EditPalette|
    ensures f.group in groups || (|groups| == 0 && f.group == "Default")
    ensures device.groupName in groups ==> f.group == device.groupName
  {
    EditForm(
      device.name, device.macAddress, device.ipAddress, IntToString(device.port),
      InferBroadcastAddress(Some(device.ipAddress)).GetOr(""), SelectedGroup(device.groupName, groups),
      ColorIndex(EditPalette, device.color))
  }

  /** The edit dialog refuses to save a non-blank invalid MAC or a non-blank invalid broadcast address. */
  predicate EditBlocked(form: EditForm) {
    (!IsBlank(form.mac) && !IsValidMacAddress(form.mac))
    || (!IsBlank(form.broadcast) && !IsValidIpAddress(Some(form.broadcast)))
  }

  /** The edit dialog's save button: `None` when it returns without saving. */
  function EditSave(device: Device, form: EditForm): (r: Option<Device>)
    requires form.colorIndex < |EditPalette|
    ensures r.None? <==> EditBlocked(form)
    ensures r.Some? ==> r.value.id == device.id
  {
    if !IsBlank(form.mac) && !IsValidMacAddress(form.mac) then None
    else if !IsBlank(form.broadcast) && !IsValidIpAddress(Some(form.broadcast)) then None
    else Some(device.(
      name := IfBlank(form.name, "Unnamed Device"),
      macAddress := Trim(form.mac),
      ipAddress := Trim(form.ip),
      port := ToIntOrNull(form.wolPort).GetOr(9),
      groupName := form.group,
      color := ArgbOf(EditPalette[form.colorIndex])))
  }

  /**
   * A saved edit keeps the device's identity, never has a blank name, stores MAC and IP
   * without surrounding whitespace, and stores the typed port when it is a 32-bit integer
   * and 9 otherwise.
   */
  lemma EditSaveNormalises(device: Device, form: EditForm, saved: Device)
    requires form.colorIndex < |EditPalette|
    requires EditSave(device, form) == Some(saved)
    ensures saved.id == device.id
    ensures !IsBlank(saved.name)
    ensures IsBlank(form.name) ==> saved.name == "Unnamed Device"
    ensures !IsBlank(form.name) ==> saved.name == form.name
    ensures saved.macAddress == Trim(form.mac) && IsTrimmed(saved.macAddress)
    ensures saved.ipAddress == Trim(form.ip) && IsTrimmed(saved.ipAddress)
    ensures saved.port == ToIntOrNull(form.wolPort).GetOr(9) && InInt32(saved.port)
  {
    assert !IsWhitespace("Unnamed Device"[0]);
    TrimIsTrimmed(form.mac);
    TrimIsTrimmed(form.ip);
  }

  /**
   * Opening the edit dialog on a device and saving without touching a field gives back
   * the same device, when the device is already in the form the dialog saves and its
   * group is one of the database's.
   */
  lemma EditUnchangedKeepsDevice(device: Device, groups: seq<string>)
    requires device.groupName in groups
    requires !IsBlank(device.name)
    requires Trim(device.macAddress) == device.macAddress
    requires Trim(device.ipAddress) == device.ipAddress
    requires IsBlank(device.macAddress) || IsValidMacAddress(device.macAddress)
    requires InInt32(device.port)
    requires exists j :: 0 <= j < |EditPalette| && ArgbOf(EditPalette[j]) == device.color
    ensures EditSave(device, EditFormOf(device, groups)) == Some(device)
  {
    var form := EditFormOf(device, groups);
    var inferred := InferBroadcastAddress(Some(device.ipAddress));
    if inferred.Some? {
      InferBroadcastIsValidAndIdempotent(Some(device.ipAddress));
    }
    assert !EditBlocked(form);
    IntToStringRoundTrip(device.port);
  }

  /**
   * A device whose group has left the database is saved, untouched, under the group the
   * dialog's check put in its place, which differs from its own unless the database has no
   * groups and the device was already in `Default`.
   */
  lemma EditMissingGroupIsReplaced(device: Device, groups: seq<string>, saved: Device)
    requires device.groupName !in groups
    requires EditSave(device, EditFormOf(device, groups)) == Some(saved)
    ensures saved.groupName == (if |groups| > 0 then groups[0] else "Default")
    ensures saved.groupName != device.groupName <==> |groups| > 0 || device.groupName != "Default"
  {
    var form := EditFormOf(device, groups);
    assert form.group == SelectedGroup(device.groupName, groups);
    assert saved.groupName == form.group;
  }

  /**
   * The text fields and selections of the add dialog's form; `group` is the selection after
   * the same group check as the edit dialog's (`SelectedGroup`).
   */
  datatype AddForm = AddForm(
    name: string, mac: string, ip: string, broadcast: string, port: string, group: string, colorIndex: nat)

  /** The add dialog's save button is enabled only for a valid MAC and a valid broadcast address. */
  predicate AddSaveEnabled(form: AddForm) {
    (!IsBlank(form.mac) && IsValidMacAddress(form.mac))
    && (!IsBlank(form.broadcast) && IsValidIpAddress(Some(form.broadcast)))
  }

  /** The add dialog's save: `None` while the button is disabled; fields are stored as typed. */
  function AddSave(form: AddForm): (r: Option<Device>)
    requires form.colorIndex < |AddPalette|
    ensures r.Some? <==> AddSaveEnabled(form)
    ensures r.Some? ==> (r.value.id == 0 && r.value.name == form.name
      && r.value.macAddress == form.mac && r.value.ipAddress == form.ip)
  {
    if !AddSaveEnabled(form) then None
    else Some(Device(
      name := form.name,
      macAddress := form.mac,
      ipAddress := form.ip,
      port := ToIntOrNull(form.port).GetOr(9),
      groupName := form.group,
      color := ArgbOf(AddPalette[form.colorIndex])))
  }

  /** The `isNotBlank` halves of the add dialog's gate are implied by the validators. */
  lemma AddSaveEnabledIffValid(form: AddForm)
    ensures AddSaveEnabled(form) <==> IsValidMacAddress(form.mac) && IsValidIpAddress(Some(form.broadcast))
  {
    if IsValidMacAddress(form.mac) {
      ValidMacIsNotBlank(form.mac);
    }
    if IsValidIpAddress(Some(form.broadcast)) {
      ValidIpIsNotBlank(form.broadcast);
    }
  }
}
