/** Output naming: the dated label file name and `uniquify_filename`, which
    probes `base (1).ext`, `base (2).ext`, ... until a name is free. The
    filesystem is a finite set of existing paths. */
module Filenames {
  import opened Wrappers

  /** The character of a decimal digit. */
  function DigitChar(d: nat): (c: char)
    requires d < 10
    ensures '0' <= c <= '9'
  {
    ('0' as int + d) as char
  }

  /** The value of a decimal digit character. */
  function DigitValue(c: char): (d: nat)
    requires '0' <= c <= '9'
    ensures d < 10
  {
    c as int - '0' as int
  }

  /** Every character is a decimal digit. */
  predicate AllDigits(s: string) {
    forall i :: 0 <= i < |s| ==> '0' <= s[i] <= '9'
  }

  /** Python's `str(n)` for a natural number: its decimal digits, no padding. */
  function NatToString(n: nat): (r: string)
    ensures |r| >= 1 && AllDigits(r)
    decreases n
  {
    if n < 10 then [DigitChar(n)] else NatToString(n / 10) + [DigitChar(n % 10)]
  }

  /** Reads a decimal digit string back (the inverse of NatToString). */
  function ParseDigits(s: string): nat
    requires AllDigits(s)
  {
    if s == [] then 0 else ParseDigits(s[..|s| - 1]) * 10 + DigitValue(s[|s| - 1])
  }

  /** `str(n)` can be read back. */
  lemma {:induction false} NatToStringRoundTrip(n: nat)
    ensures ParseDigits(NatToString(n)) == n
  {
    if n >= 10 {
      var s := NatToString(n);
      assert s[..|s| - 1] == NatToString(n / 10);
      NatToStringRoundTrip(n / 10);
    }
  }

  /** `str(n)` has no leading zero: only 0 itself is written starting with
      '0', as the single character "0". */
  lemma {:induction false} NatToStringNoLeadingZero(n: nat)
    ensures NatToString(n)[0] == '0' <==> n == 0
    ensures n == 0 ==> NatToString(n) == "0"
  {
    if n >= 10 {
      NatToStringNoLeadingZero(n / 10);
    }
  }

  /** Distinct counters are written as distinct strings. */
  lemma NatToStringInjective(a: nat, b: nat)
    ensures NatToString(a) == NatToString(b) ==> a == b
  {
    NatToStringRoundTrip(a);
    NatToStringRoundTrip(b);
  }

  /** `s.rfind(c)`: the last index holding `c`, or -1. */
  function LastIndexOf(s: string, c: char): (i: int)
    ensures -1 <= i < |s|
    ensures i >= 0 ==> s[i] == c
    ensures forall j :: i < j < |s| ==> s[j] != c
  {
    if s == [] then -1
    else if s[|s| - 1] == c then |s| - 1
    else LastIndexOf(s[..|s| - 1], c)
  }

  /** `os.path.splitext` on a POSIX path: the extension starts at the last
      '.' of the last path component, unless every character of that
      component before the dot is a dot (".bashrc" has no extension). */
  function SplitExt(path: string): (parts: (string, string))
    ensures parts.0 + parts.1 == path
    ensures parts.1 == [] || (parts.1[0] == '.' && '.' !in parts.1[1..] && '/' !in parts.1)
    ensures parts.1 != [] <==>
      var sepIndex, dotIndex := LastIndexOf(path, '/'), LastIndexOf(path, '.');
      sepIndex < dotIndex && exists k :: sepIndex < k < dotIndex && path[k] != '.'
    ensures parts.1 != [] ==> |parts.0| == LastIndexOf(path, '.')
  {
    var sepIndex := LastIndexOf(path, '/');
    var dotIndex := LastIndexOf(path, '.');
    if sepIndex < dotIndex && exists k :: sepIndex < k < dotIndex && path[k] != '.' then
      (path[..dotIndex], path[dotIndex..])
    else
      (path, [])
  }

  /** The n-th path `uniquify_filename` checks: the requested path itself,
      then `base (n).ext` for n = 1, 2, ... */
  function Probe(path: string, n: nat): string {
    if n == 0 then path
    else
      var parts := SplitExt(path);
      parts.0 + " (" + NatToString(n) + ")" + parts.1
  }

  /** `n` is the first probe that does not exist: every earlier one does. */
  ghost predicate LeastFreeIndex(path: string, existing: set<string>, n: nat) {
    && Probe(path, n) !in existing
    && forall k :: 0 <= k < n ==> Probe(path, k) in existing
  }

  /** No two probes of one path coincide, so each iteration of the loop
      checks a path it has not checked before. */
  lemma ProbesDistinct(path: string, i: nat, j: nat)
    requires i != j
    ensures Probe(path, i) != Probe(path, j)
  {
    var parts := SplitExt(path);
    if i != 0 && j != 0 && Probe(path, i) == Probe(path, j) {
      var p, si, sj := Probe(path, i), NatToString(i), NatToString(j);
      var lo := |parts.0| + 2;
      assert |si| == |sj|;
      assert p[lo..lo + |si|] == si;
      assert p[lo..lo + |sj|] == sj;
      NatToStringInjective(i, j);
    }
  }

  /** If the first `n` probes all exist, there are at least `n` existing
      paths: the loop cannot run more often than there are files. */
  lemma {:induction false} ProbesBound(path: string, existing: set<string>, n: nat)
    requires forall k :: 0 <= k < n ==> Probe(path, k) in existing
    ensures n <= |existing|
  {
    if n > 0 {
      var last := Probe(path, n - 1);
      forall k | 0 <= k < n - 1
        ensures Probe(path, k) in existing - {last}
      {
        ProbesDistinct(path, k, n - 1);
      }
      ProbesBound(path, existing - {last}, n - 1);
    }
  }

  /** The first free probe is at most |existing|, so at most |existing| + 1
      existence checks are made. */
  lemma LeastFreeIndexBound(path: string, existing: set<string>, n: nat)
    requires LeastFreeIndex(path, existing, n)
    ensures n <= |existing|
  {
    ProbesBound(path, existing, n);
  }

  /** The first free probe is unique: the result is fully determined. */
  lemma LeastFreeIndexUnique(path: string, existing: set<string>, n: nat, m: nat)
    requires LeastFreeIndex(path, existing, n) && LeastFreeIndex(path, existing, m)
    ensures n == m
  {
  }

  /** `uniquify_filename`: the requested path if it is free, otherwise the
      first free `base (n).ext`. */
  method UniquifyFilename(path: string, existing: set<string>) returns (r: string)
    ensures r !in existing
    ensures path !in existing ==> r == path
    ensures exists n: nat :: n <= |existing| && LeastFreeIndex(path, existing, n) && r == Probe(path, n)
  {
    var parts := SplitExt(path);
    var filename, extension := parts.0, parts.1;
    var counter := 1;
    r := path;
    while r in existing
      invariant 1 <= counter <= |existing| + 1
      invariant r == Probe(path, counter - 1)
      invariant forall k :: 0 <= k < counter - 1 ==> Probe(path, k) in existing
      decreases |existing| + 1 - counter
    {
      ProbesBound(path, existing, counter);
      r := filename + " (" + NatToString(counter) + ")" + extension;
      counter := counter + 1;
    }
    assert LeastFreeIndex(path, existing, counter - 1);
  }

  /** Two runs on one day: the second run, seeing the first run's output,
      settles on a later probe, so neither file overwrites the other. */
  lemma SecondRunLater(path: string, existing: set<string>, first: nat, second: nat)
    requires LeastFreeIndex(path, existing, first)
    requires LeastFreeIndex(path, existing + {Probe(path, first)}, second)
    ensures first < second
    ensures Probe(path, second) != Probe(path, first) && Probe(path, second) !in existing
  {
  }

  /** The last index of `c` is determined by the index's defining property. */
  lemma LastIndexOfIs(s: string, c: char, i: int)
    requires -1 <= i < |s|
    requires i >= 0 ==> s[i] == c
    requires forall j :: i < j < |s| ==> s[j] != c
    ensures LastIndexOf(s, c) == i
  {
  }

  /** A directory-free name `stem + ext` whose stem has no dot and does not
      start with one, and whose extension is a dot followed by no other dot,
      splits into exactly those two parts. */
  lemma SplitExtPlain(stem: string, ext: string)
    requires stem != [] && '.' !in stem && '/' !in stem
    requires |ext| >= 1 && ext[0] == '.' && '.' !in ext[1..] && '/' !in ext
    ensures SplitExt(stem + ext) == (stem, ext)
  {
    var path := stem + ext;
    forall j | 0 <= j < |path|
      ensures path[j] != '/'
    {
      if j < |stem| { assert path[j] == stem[j]; } else { assert path[j] == ext[j - |stem|]; }
    }
    LastIndexOfIs(path, '/', -1);
    forall j | |stem| < j < |path|
      ensures path[j] != '.'
    {
      assert path[j] == ext[1..][j - |stem| - 1];
    }
    LastIndexOfIs(path, '.', |stem|);
    assert path[0] == stem[0] && stem[0] != '.';
    assert path[..|stem|] == stem && path[|stem|..] == ext;
  }

  /** `%m`, `%d`: two zero-padded digits. */
  function TwoDigits(n: nat): (r: string)
    requires n < 100
    ensures |r| == 2 && AllDigits(r)
  {
    [DigitChar(n / 10), DigitChar(n % 10)]
  }

  /** `%Y`: four zero-padded digits. */
  function FourDigits(n: nat): (r: string)
    requires n < 10000
    ensures |r| == 4 && AllDigits(r)
  {
    [DigitChar(n / 1000), DigitChar(n / 100 % 10), DigitChar(n / 10 % 10), DigitChar(n % 10)]
  }

  const LabelPrefix: string := "tcg_labels_"
  const PdfExtension: string := ".pdf"

  /** The date part of the output name, `MM-DD-YYYY`. */
  function DateStamp(month: nat, day: nat, year: nat): (r: string)
    requires 1 <= month <= 12 && 1 <= day <= 31 && 1 <= year <= 9999
    ensures |r| == 10 && r[2] == '-' && r[5] == '-'
  {
    TwoDigits(month) + "-" + TwoDigits(day) + "-" + FourDigits(year)
  }

  /** `f'tcg_labels_{datetime.today():%m-%d-%Y}.pdf'`, with the date given. */
  function LabelFileName(month: nat, day: nat, year: nat): (name: string)
    requires 1 <= month <= 12 && 1 <= day <= 31 && 1 <= year <= 9999
    ensures |name| == 25
  {
    LabelPrefix + DateStamp(month, day, year) + PdfExtension
  }

  /** Reads the date back out of a label file name. */
  function LabelDate(name: string): Option<(nat, nat, nat)> {
    if |name| == 25 && name[..11] == LabelPrefix && name[21..] == PdfExtension
       && AllDigits(name[11..13]) && AllDigits(name[14..16]) && AllDigits(name[17..21])
    then Some((ParseDigits(name[11..13]), ParseDigits(name[14..16]), ParseDigits(name[17..21])))
    else None
  }

  /** The padded fields can be read back. */
  lemma TwoDigitsRoundTrip(n: nat)
    requires n < 100
    ensures ParseDigits(TwoDigits(n)) == n
  {
    var s := TwoDigits(n);
    assert ParseDigits(s[..1]) == n / 10 by {
      assert s[..1][..0] == [];
    }
  }

  lemma FourDigitsRoundTrip(n: nat)
    requires n < 10000
    ensures ParseDigits(FourDigits(n)) == n
  {
    var s := FourDigits(n);
    assert ParseDigits(s[..1]) == n / 1000 by {
      assert s[..1][..0] == [];
    }
    assert ParseDigits(s[..2]) == n / 100 by {
      assert s[..2][..1] == s[..1];
    }
    assert ParseDigits(s[..3]) == n / 10 by {
      assert s[..3][..2] == s[..2];
    }
  }

  /** The date can be read back from the file name, so distinct dates give
      distinct names. */
  lemma {:induction false} LabelFileNameRoundTrip(month: nat, day: nat, year: nat)
    requires 1 <= month <= 12 && 1 <= day <= 31 && 1 <= year <= 9999
    ensures LabelDate(LabelFileName(month, day, year)) == Some((month, day, year))
  {
    var name := LabelFileName(month, day, year);
    var stamp := DateStamp(month, day, year);
    assert name[..11] == LabelPrefix;
    assert name[11..21] == stamp;
    assert name[21..] == PdfExtension;
    assert stamp[..2] == TwoDigits(month);
    assert stamp[3..5] == TwoDigits(day);
    assert stamp[6..] == FourDigits(year);
    assert name[11..13] == stamp[..2];
    assert name[14..16] == stamp[3..5];
    assert name[17..21] == stamp[6..];
    TwoDigitsRoundTrip(month);
    TwoDigitsRoundTrip(day);
    FourDigitsRoundTrip(year);
  }

  /** The label file name splits as `tcg_labels_MM-DD-YYYY` and `.pdf`, so
      its n-th probe is `tcg_labels_MM-DD-YYYY (n).pdf`. */
  lemma LabelFileNameProbe(month: nat, day: nat, year: nat, n: nat)
    requires 1 <= month <= 12 && 1 <= day <= 31 && 1 <= year <= 9999
    requires n >= 1
    ensures Probe(LabelFileName(month, day, year), n)
            == LabelPrefix + DateStamp(month, day, year) + " (" + NatToString(n) + ")" + PdfExtension
  {
    var stem := LabelPrefix + DateStamp(month, day, year);
    assert '.' !in LabelPrefix && '/' !in LabelPrefix;
    assert '.' !in stem && '/' !in stem;
    assert '.' !in PdfExtension[1..] && '/' !in PdfExtension;
    SplitExtPlain(stem, PdfExtension);
  }

  /** With `labels.pdf` taken, the first free name is `labels (1).pdf`; with
      that taken too, `labels (2).pdf`; with nothing taken, the name itself. */
  lemma LabelsPdfExample(path: string)
    requires path == "labels.pdf"
    ensures LeastFreeIndex(path, {}, 0)
    ensures LeastFreeIndex(path, {path}, 1) && Probe(path, 1) == "labels (1).pdf"
    ensures LeastFreeIndex(path, {path, Probe(path, 1)}, 2) && Probe(path, 2) == "labels (2).pdf"
  {
    assert path == "labels" + ".pdf";
    SplitExtPlain("labels", ".pdf");
    ProbesDistinct(path, 0, 1);
    ProbesDistinct(path, 0, 2);
    ProbesDistinct(path, 1, 2);
  }
}
