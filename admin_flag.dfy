/**
 * The session flag file `ventas_admin.conf` (`crear_archivo_admin` and `leer_estado_admin`,
 * src-tauri/src/main.rs:535-563): a successful login writes whether the user is an
 * administrator, and receipt generation reads it back. Where the file lives and whether the
 * write succeeds are left to the file system; the file is modelled by its text.
 */
module AdminFlag {
  import opened Wrappers
  import opened RustText

  /** `format!("admin={}", if es_admin { 1 } else { 0 })`. */
  function EncodeAdminFlag(isAdmin: bool): (r: string)
    ensures Occurrences(r, '=') == 1
    ensures r[|r| - 1] == (if isAdmin then '1' else '0')
  {
    var r := "admin=" + (if isAdmin then "1" else "0");
    assert Occurrences(r, '=') == 1 by {
      assert r == "admin" + ['='] + r[6..];
      OccurrencesAround("admin", '=', r[6..]);
    }
    r
  }

  /** The value after the `=`, trimmed: `1` and `0` are the only values read as a flag. */
  function FlagValue(value: string): (r: Option<bool>)
    ensures r == Some(true) <==> value == "1"
    ensures r == Some(false) <==> value == "0"
  {
    if value == "1" then Some(true) else if value == "0" then Some(false) else None
  }

  /**
   * The text of the file: trimmed, split at every `=`, read only when there are exactly two
   * pieces, and then by the trimmed second piece alone.
   */
  function ParseAdminFlag(content: string): (r: Option<bool>)
    ensures r.Some? ==> Occurrences(Trim(content), '=') == 1
  {
    var parts := Split(Trim(content), '=');
    if |parts| != 2 then None else FlagValue(Trim(parts[1]))
  }

  /** `leer_estado_admin`: no file (or one that cannot be read as text) gives no flag. */
  function ReadAdminFlag(file: Option<string>): (r: Option<bool>)
    ensures file.None? ==> r.None?
    ensures file.Some? ==> r == ParseAdminFlag(file.value)
  {
    match file
    case None => None
    case Some(content) => ParseAdminFlag(content)
  }

  /** Occurrences of a character add up around one occurrence of it. */
  lemma {:induction false} OccurrencesAround(a: string, c: char, b: string)
    ensures Occurrences(a + [c] + b, c) == Occurrences(a, c) + 1 + Occurrences(b, c)
  {
    if a == [] {
      assert a + [c] + b == [c] + b;
      assert ([c] + b)[1..] == b;
    } else {
      assert (a + [c] + b)[1..] == a[1..] + [c] + b;
      OccurrencesAround(a[1..], c, b);
    }
  }

  /** A piece of a text cut at both ends lacks whatever the text lacks. */
  lemma SliceLacks(s: string, c: char, i: nat, j: nat)
    requires c !in s && i <= j <= |s|
    ensures c !in s[i..j]
  {
    forall k | 0 <= k < j - i ensures s[i..j][k] != c {
      assert s[i..j][k] == s[i + k];
    }
  }

  /**
   * The key is never checked: any text without `=` before one `=` and a value without `=` is
   * read by the trimmed value alone.
   */
  lemma ParseIgnoresKey(key: string, value: string)
    requires '=' !in key && '=' !in value
    ensures ParseAdminFlag(key + "=" + value) == FlagValue(Trim(value))
  {
    var k, v := TrimStart(key), TrimEnd(value);
    assert key + "=" + value == key + ['='] + value;
    TrimAround(key, '=', value);
    SliceLacks(key, '=', |key| - |k|, |key|);
    SliceLacks(value, '=', 0, |v|);
    SplitPair(k, '=', v);
    TrimOfTrimEnd(value);
  }

  /** What a login writes is read back as the same flag. */
  lemma FlagRoundTrip(isAdmin: bool)
    ensures ParseAdminFlag(EncodeAdminFlag(isAdmin)) == Some(isAdmin)
  {
    assert EncodeAdminFlag(isAdmin) == "admin" + "=" + (if isAdmin then "1" else "0");
    AnyKeyAccepted("admin", isAdmin);
  }

  /** A text without `=` is not a flag. */
  lemma NoSeparatorUnread(content: string)
    requires '=' !in content
    ensures ParseAdminFlag(content) == None
  {
    var t := Trim(content);
    var i := |content| - |TrimStart(content)|;
    TrimCharacterised(content);
    SliceLacks(content, '=', i, i + |t|);
    SplitWithout(t, '=');
  }

  /** A flag text cut short anywhere before its last character is not a flag. */
  lemma CutFlagUnread(isAdmin: bool, k: nat)
    requires k < |EncodeAdminFlag(isAdmin)|
    ensures ParseAdminFlag(EncodeAdminFlag(isAdmin)[..k]) == None
  {
    var text := EncodeAdminFlag(isAdmin);
    var key := "admin";
    assert text == key + "=" + (if isAdmin then "1" else "0");
    var p := text[..k];
    if k == |key| + 1 {
      assert p == key + "=" + [];
      ParseIgnoresKey(key, []);
      assert Trim([]) == [];
    } else {
      assert p == key[..k];
      SliceLacks(key, '=', 0, k);
      NoSeparatorUnread(p);
    }
  }

  /**
   * What `fs::write` did to the flag file: wrote the whole text, failed before the file was
   * created (and so truncated), or failed after it was truncated with only the first `kept`
   * characters of the text written.
   */
  datatype FlagWrite = Written | Untouched | CutShort(kept: nat)

  /**
   * The flag file after `crear_archivo_admin` (src-tauri/src/main.rs:535-549): a prefix of the
   * flag text, or the old file when the write never started. A text cut short reads as no flag,
   * so the session is then not an administrator's.
   */
  function WriteAdminFlag(file: Option<string>, isAdmin: bool, w: FlagWrite): (r: Option<string>)
    ensures w == Untouched ==> r == file
    ensures w != Untouched ==> r.Some? && StartsWith(EncodeAdminFlag(isAdmin), r.value)
    ensures w == Written ==> ReadAdminFlag(r) == Some(isAdmin)
    ensures w.CutShort? && w.kept < |EncodeAdminFlag(isAdmin)| ==> ReadAdminFlag(r) == None
  {
    var text := EncodeAdminFlag(isAdmin);
    match w
    case Written =>
      FlagRoundTrip(isAdmin);
      Some(text)
    case Untouched => file
    case CutShort(k) =>
      if k < |text| then
        CutFlagUnread(isAdmin, k);
        Some(text[..k])
      else
        Some(text)
  }

  /** A text with no `=` or with more than one (after trimming) is not a flag. */
  lemma WrongSeparatorCount(content: string)
    requires Occurrences(Trim(content), '=') != 1
    ensures ParseAdminFlag(content) == None
  {
  }

  /**
   * Whitespace around the value is ignored: a key without `=`, then `=`, then `1` or `0` with
   * blanks on either side, reads as that flag.
   */
  lemma WhitespaceIgnored(key: string, before: string, isAdmin: bool, after: string)
    requires '=' !in key && Blank(before) && Blank(after)
    ensures ParseAdminFlag(key + "=" + (before + [if isAdmin then '1' else '0'] + after)) == Some(isAdmin)
  {
    var d := if isAdmin then '1' else '0';
    var v := before + [d] + after;
    assert '=' !in v by {
      forall i | 0 <= i < |v| ensures v[i] != '=' {
        if i < |before| { assert v[i] == before[i]; }
        else if i > |before| { assert v[i] == after[i - |before| - 1]; }
      }
    }
    BlankTrimmed(before);
    BlankTrimmed(after);
    TrimStartAt(before, d, after);
    assert TrimStart(v) == [d] + after;
    TrimEndAt([], d, after);
    assert [] + [d] + after == [d] + after;
    assert Trim(v) == [d];
    ParseIgnoresKey(key, v);
  }

  /** Any key is accepted: only the value after the `=` decides. */
  lemma AnyKeyAccepted(key: string, isAdmin: bool)
    requires '=' !in key
    ensures ParseAdminFlag(key + "=" + (if isAdmin then "1" else "0")) == Some(isAdmin)
  {
    var v := if isAdmin then "1" else "0";
    assert v == [v[0]] && !IsWhitespace(v[0]) && '=' !in v;
    TrimKeeps(v);
    assert FlagValue(v) == Some(isAdmin);
    ParseIgnoresKey(key, v);
  }
}
