/**
 * Ticket barcodes: `str(uuid.uuid4()).replace('-', '')[:16].upper()`.
 * The random UUID is an input to the model (an oracle value); what is
 * modelled is how the barcode is cut from its canonical text.
 */
module Barcode {

  predicate IsLowerHex(c: char) {
    '0' <= c <= '9' || 'a' <= c <= 'f'
  }

  predicate IsUpperHex(c: char) {
    '0' <= c <= '9' || 'A' <= c <= 'F'
  }

  predicate IsDashPosition(i: int) {
    i == 8 || i == 13 || i == 18 || i == 23
  }

  /** The canonical text of a UUID: groups of 8-4-4-4-12 lower-case hex
      digits separated by dashes. */
  predicate IsUuidText(u: string) {
    |u| == 36 &&
    forall i :: 0 <= i < 36 ==> if IsDashPosition(i) then u[i] == '-' else IsLowerHex(u[i])
  }

  /** `s.replace('-', '')` */
  function RemoveDashes(s: string): (r: string)
    ensures |r| <= |s|
  {
    if s == [] then []
    else (if s[0] == '-' then [] else [s[0]]) + RemoveDashes(s[1..])
  }

  /** `s.upper()` on ASCII text. */
  function ToUpper(s: string): (r: string)
    ensures |r| == |s|
    ensures forall i :: 0 <= i < |s| && IsLowerHex(s[i]) ==> IsUpperHex(r[i])
  {
    if s == [] then []
    else [if 'a' <= s[0] <= 'z' then (s[0] as int - 32) as char else s[0]] + ToUpper(s[1..])
  }

  lemma {:induction false} RemoveDashesAppend(a: string, b: string)
    ensures RemoveDashes(a + b) == RemoveDashes(a) + RemoveDashes(b)
    decreases |a|
  {
    if a == [] {
      assert a + b == b;
    } else {
      assert (a + b)[0] == a[0];
      assert (a + b)[1..] == a[1..] + b;
      RemoveDashesAppend(a[1..], b);
    }
  }

  lemma {:induction false} RemoveDashesNoDash(a: string)
    requires forall i :: 0 <= i < |a| ==> a[i] != '-'
    ensures RemoveDashes(a) == a
    decreases |a|
  {
    if a != [] {
      RemoveDashesNoDash(a[1..]);
    }
  }

  /** Joining a dash-free group behind a dash adds exactly that group. */
  lemma DashJoin(x: string, g: string)
    requires forall i :: 0 <= i < |g| ==> g[i] != '-'
    ensures RemoveDashes(x + "-" + g) == RemoveDashes(x) + g
  {
    assert RemoveDashes("-") == [] by {
      assert "-"[1..] == [];
    }
    RemoveDashesAppend(x + "-", g);
    RemoveDashesAppend(x, "-");
    RemoveDashesNoDash(g);
  }

  /** Removing the four dashes leaves the 32 hex digits in order. */
  lemma UuidHexDigits(u: string)
    requires IsUuidText(u)
    ensures RemoveDashes(u) == u[..8] + u[9..13] + u[14..18] + u[19..23] + u[24..]
  {
    var s1 := u[..8];
    var s2 := u[..13];
    var s3 := u[..18];
    var s4 := u[..23];
    assert s2 == s1 + "-" + u[9..13];
    assert s3 == s2 + "-" + u[14..18];
    assert s4 == s3 + "-" + u[19..23];
    assert u == s4 + "-" + u[24..];
    RemoveDashesNoDash(s1);
    DashJoin(s1, u[9..13]);
    DashJoin(s2, u[14..18]);
    DashJoin(s3, u[19..23]);
    DashJoin(s4, u[24..]);
  }

  /** A barcode is the first 16 hex digits of the UUID, upper-cased: 16
      characters, each an upper-case hex digit. */
  function BarcodeOf(uuid: string): (b: string)
    requires IsUuidText(uuid)
    ensures b == ToUpper(uuid[..8] + uuid[9..13] + uuid[14..18])
    ensures |b| == 16
    ensures forall i :: 0 <= i < 16 ==> IsUpperHex(b[i])
  {
    UuidHexDigits(uuid);
    var hex := RemoveDashes(uuid);
    assert hex[..16] == uuid[..8] + uuid[9..13] + uuid[14..18];
    ToUpper(hex[..16])
  }
}
