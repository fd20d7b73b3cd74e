/**
 * How the backup script names things: the decimal part number, the archive
 * and entry names of one part, the name the parts are called after, the
 * destination folder of a source file, and the extension filter.
 */
module Naming {
  import opened Wrappers
  import opened PosixPath

  predicate IsDigit(ch: char) {
    '0' <= ch <= '9'
  }

  predicate AllDigits(s: string) {
    forall i :: 0 <= i < |s| ==> IsDigit(s[i])
  }

  function DigitChar(d: nat): (ch: char)
    requires d < 10
    ensures IsDigit(ch) && ch as int - '0' as int == d
  {
    ('0' as int + d) as char
  }

  /** Python's `str(n)` for a natural number: its decimal digits, no leading zero. */
  function NatToString(n: nat): string
    decreases n
  {
    if n < 10 then [DigitChar(n)] else NatToString(n / 10) + [DigitChar(n % 10)]
  }

  /** The decimal text is a non-empty run of digits that starts with `0` only for zero. */
  lemma {:induction false} NatToStringDigits(n: nat)
    ensures var s := NatToString(n);
      |s| >= 1 && AllDigits(s) && (s[0] == '0') == (n == 0)
    decreases n
  {
    if n >= 10 {
      NatToStringDigits(n / 10);
    }
  }

  /** The number a string of decimal digits denotes (Python's `int(s)` on digits). */
  function DecimalValue(s: string): nat
    requires AllDigits(s)
  {
    if s == [] then 0
    else 10 * DecimalValue(s[..|s| - 1]) + (s[|s| - 1] as int - '0' as int)
  }

  /** Reading back the decimal text of a number gives the number. */
  lemma {:induction false} DecimalRoundTrip(n: nat)
    ensures AllDigits(NatToString(n)) && DecimalValue(NatToString(n)) == n
    decreases n
  {
    NatToStringDigits(n);
    var s := NatToString(n);
    if n >= 10 {
      assert s[..|s| - 1] == NatToString(n / 10);
      DecimalRoundTrip(n / 10);
    }
  }

  /** Different numbers have different decimal texts. */
  lemma NatToStringInjective(a: nat, b: nat)
    ensures NatToString(a) == NatToString(b) <==> a == b
  {
    DecimalRoundTrip(a);
    DecimalRoundTrip(b);
  }

  /** The name of part `k` (1-based) of a file: `{effective}_part_{k}`; it is also the archive's only entry. */
  function PartStem(effective: string, k: nat): string {
    effective + "_part_" + NatToString(k)
  }

  /** The archive file name of part `k`: `{effective}_part_{k}.zip`. */
  function ArchiveFileName(effective: string, k: nat): string {
    PartStem(effective, k) + ".zip"
  }

  /** Parts with different numbers have different entry names. */
  lemma PartStemInjective(effective: string, j: nat, k: nat)
    ensures PartStem(effective, j) == PartStem(effective, k) <==> j == k
  {
    var n := |effective| + 6;
    if PartStem(effective, j) == PartStem(effective, k) {
      assert PartStem(effective, j)[n..] == NatToString(j);
      assert PartStem(effective, k)[n..] == NatToString(k);
      NatToStringInjective(j, k);
    }
  }

  /** Parts with different numbers have different archive file names. */
  lemma ArchiveFileNameInjective(effective: string, j: nat, k: nat)
    ensures ArchiveFileName(effective, j) == ArchiveFileName(effective, k) <==> j == k
  {
    if ArchiveFileName(effective, j) == ArchiveFileName(effective, k) {
      var a, b := ArchiveFileName(effective, j), ArchiveFileName(effective, k);
      assert a[..|a| - 4] == PartStem(effective, j);
      assert b[..|b| - 4] == PartStem(effective, k);
      PartStemInjective(effective, j, k);
    }
  }

  /**
   * The entry inside part `k` is named after the archive file without its
   * `.zip` extension, for every effective name.
   */
  lemma ArchiveNameSplitsToEntry(effective: string, k: nat)
    ensures SplitExt(ArchiveFileName(effective, k)) == (PartStem(effective, k), ".zip")
  {
    var stem := PartStem(effective, k);
    var p := ArchiveFileName(effective, k);
    var digits := NatToString(k);
    NatToStringDigits(k);
    assert |stem| == |effective| + 6 + |digits|;
    assert p[|stem|] == '.' && p[|stem| + 1] == 'z' && p[|stem| + 2] == 'i' && p[|stem| + 3] == 'p';
    assert RFind(p, '.') == |stem|;
    forall j | |effective| <= j < |p| ensures p[j] != '/' {
      if |effective| + 6 <= j < |stem| {
        assert p[j] == digits[j - |effective| - 6];
      }
    }
    var sepIndex := RFind(p, '/');
    assert sepIndex < |effective|;
    assert p[|effective|] == '_';
    assert HasNonDot(p, sepIndex + 1, |stem|);
    assert p[..|stem|] == stem && p[|stem|..] == ".zip";
  }

  /** The name parts are called after: a non-empty prefix, else the base name. */
  function EffectiveName(prefix: Option<string>, baseFilename: string): string {
    if prefix.Some? && prefix.value != [] then prefix.value else baseFilename
  }

  /** The destination sub-folder: a non-empty configured folder name, else the base name without extension. */
  function FolderComponent(folderName: string, baseNoExt: string): string {
    if folderName != [] then folderName else baseNoExt
  }

  /** `destination/folder/date` when the date segment is non-empty, else `destination/folder`. */
  function Destination(root: Path, folder: string, date: string): Path {
    if date != [] then Join(Join(root, folder), date) else Join(root, folder)
  }

  /** A file passes when no extensions are configured or its exact extension is one of them. */
  predicate ExtensionAllowed(name: string, allowed: seq<string>) {
    |allowed| == 0 || SplitExt(name).1 in allowed
  }

  /**
   * For plain relative segments the destination is the segments separated
   * by `/`, the date segment present exactly when it is non-empty.
   */
  lemma DestinationLaw(root: Path, folder: string, date: string)
    requires root != [] && root[|root| - 1] != '/'
    requires folder != [] && folder[0] != '/' && folder[|folder| - 1] != '/'
    requires date == [] || date[0] != '/'
    ensures Destination(root, folder, date)
         == if date == [] then root + "/" + folder else root + "/" + folder + "/" + date
  {
  }
}
