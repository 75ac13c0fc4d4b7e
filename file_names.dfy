/**
  File names of exported and downloaded files: the two `sanitizeFilename`
  functions (sidebar.js and background.js) and the tables that pick a
  file extension from a MIME type or an artifact type (background.js).
*/
module FileNames {
  import opened Wrappers
  import opened Text

  /** The characters `[<>:"/\\|?*]` matches. */
  predicate Reserved(c: char) {
    c == '<' || c == '>' || c == ':' || c == '"' || c == '/' || c == '\\' || c == '|' || c == '?' || c == '*'
  }

  predicate IsDash(c: char) { c == '-' }

  /** `s.replace(/[<>:"/\\|?*]/g, '_')`; on its own this is the service
      worker's `sanitizeFilename` (background.js:425-427). */
  function ReplaceReserved(s: string): (r: string)
    ensures |r| == |s|
    ensures forall i :: 0 <= i < |s| ==> r[i] == (if Reserved(s[i]) then '_' else s[i])
  {
    if s == [] then [] else [if Reserved(s[0]) then '_' else s[0]] + ReplaceReserved(s[1..])
  }

  predicate NoReserved(s: string) {
    forall i :: 0 <= i < |s| ==> !Reserved(s[i])
  }

  /** The service worker's sanitising keeps the length, leaves no reserved
      character, changes every reserved character and nothing else, and
      changes nothing in a name that has none. */
  lemma ReplaceReservedSpec(s: string)
    ensures NoReserved(ReplaceReserved(s))
    ensures forall i :: 0 <= i < |s| ==> (ReplaceReserved(s)[i] != s[i] <==> Reserved(s[i]))
    ensures NoReserved(s) ==> ReplaceReserved(s) == s
  {
  }

  /** The length of the run of characters satisfying `p` that `s` starts with. */
  function Run(s: string, p: char -> bool): (n: nat)
    ensures n <= |s| && (n < |s| ==> !p(s[n]))
    ensures forall i :: 0 <= i < n ==> p(s[i])
  {
    if s == [] || !p(s[0]) then 0 else 1 + Run(s[1..], p)
  }

  /** `s.replace(/P+/g, r)` for a one-character class P. */
  function CollapseRuns(s: string, p: char -> bool, r: char): (t: string)
    ensures |t| <= |s|
    ensures forall i :: 0 <= i < |t| ==> t[i] == r || (t[i] in s && !p(t[i]))
    ensures t != [] ==> t[0] == (if p(s[0]) then r else s[0])
    decreases |s|
  {
    if s == [] then []
    else if !p(s[0]) then [s[0]] + CollapseRuns(s[1..], p, r)
    else [r] + CollapseRuns(s[Run(s, p)..], p, r)
  }

  /** No two neighbouring characters both satisfy `p`. */
  predicate NoTwoInARow(t: string, p: char -> bool) {
    forall i :: 0 <= i < |t| - 1 ==> !(p(t[i]) && p(t[i + 1]))
  }

  /** When the replacement is itself of the class, no two characters of
      the class are left next to each other. */
  lemma {:induction false} CollapseRunsApart(s: string, p: char -> bool, r: char)
    requires p(r)
    ensures NoTwoInARow(CollapseRuns(s, p, r), p)
    decreases |s|
  {
    if s != [] {
      var n := if p(s[0]) then Run(s, p) else 1;
      var h := if p(s[0]) then r else s[0];
      var t := CollapseRuns(s[n..], p, r);
      CollapseRunsApart(s[n..], p, r);
      var u := [h] + t;
      forall i | 0 <= i < |u| - 1
        ensures !(p(u[i]) && p(u[i + 1]))
      {
        if i > 0 {
          assert u[i] == t[i - 1] && u[i + 1] == t[i];
        } else {
          assert u[1] == t[0];
        }
      }
    }
  }

  /** Collapsing changes nothing when every character of the class is
      already the replacement and none has a neighbour of the class. */
  lemma {:induction false} CollapseRunsIdentity(s: string, p: char -> bool, r: char)
    requires NoTwoInARow(s, p)
    requires forall i :: 0 <= i < |s| ==> p(s[i]) ==> s[i] == r
    ensures CollapseRuns(s, p, r) == s
    decreases |s|
  {
    if s != [] {
      var n := if p(s[0]) then Run(s, p) else 1;
      if |s| >= 2 {
        assert !(p(s[0]) && p(s[1]));
      }
      assert n == 1;
      assert NoTwoInARow(s[1..], p) by {
        forall i | 0 <= i < |s[1..]| - 1
          ensures !(p(s[1..][i]) && p(s[1..][i + 1]))
        {
          assert s[1..][i] == s[i + 1] && s[1..][i + 1] == s[i + 2];
        }
      }
      CollapseRunsIdentity(s[1..], p, r);
      assert s == [s[0]] + s[1..];
    }
  }

  /** `substring(0, 100)`: at most 100 UTF-16 code units, as many whole
      characters as fit. */
  function Take100(s: string): (r: string)
    ensures |r| <= 100 && |r| <= |s| && r == s[..|r|]
    ensures Utf16Length(r) <= 100
    ensures Utf16Length(s) <= 100 ==> r == s
    ensures |r| < |s| ==> Utf16Length(s[..|r| + 1]) > 100
  {
    TakeUnits(s, 100)
  }

  /** The side panel's `sanitizeFilename` (sidebar.js:1157-1163): reserved
      characters become `_`, whitespace runs `-`, dash runs one `-`, and
      the result is cut to 100 UTF-16 code units. */
  function Sanitize(name: string): string {
    Take100(CollapseRuns(CollapseRuns(ReplaceReserved(name), IsSpace, '-'), IsDash, '-'))
  }

  /** A name safe to save under: no reserved character, no whitespace and
      no `--`, at most 100 UTF-16 code units. */
  predicate Clean(t: string) {
    && Utf16Length(t) <= 100
    && NoReserved(t)
    && NoSpace(t)
    && NoTwoInARow(t, IsDash)
  }

  predicate NoSpace(t: string) {
    forall i :: 0 <= i < |t| ==> !IsSpace(t[i])
  }

  /** The side panel's sanitised names are clean, and sanitising a clean
      name changes nothing, so sanitising twice equals sanitising once. */
  lemma SanitizeSpec(name: string)
    ensures Clean(Sanitize(name))
    ensures Sanitize(Sanitize(name)) == Sanitize(name)
  {
    SanitizeClean(name);
    SanitizeKeepsClean(Sanitize(name));
  }

  lemma SanitizeClean(name: string)
    ensures Clean(Sanitize(name))
  {
    var a := ReplaceReserved(name);
    ReplaceReservedSpec(name);
    var b := CollapseRuns(a, IsSpace, '-');
    CollapseRunsKeeps(a, IsSpace, '-', c => !Reserved(c));
    assert NoSpace(b) by {
      assert !IsSpace('-');
    }
    var c := CollapseRuns(b, IsDash, '-');
    CollapseRunsKeeps(b, IsDash, '-', c => !Reserved(c));
    CollapseRunsKeeps(b, IsDash, '-', c => !IsSpace(c));
    CollapseRunsApart(b, IsDash, '-');
    TakeKeepsClean(c);
  }

  /** A property every character of the input and the replacement has
      holds of every character of the result. */
  lemma CollapseRunsKeeps(s: string, p: char -> bool, r: char, q: char -> bool)
    requires forall i :: 0 <= i < |s| ==> q(s[i])
    requires q(r)
    ensures forall i :: 0 <= i < |CollapseRuns(s, p, r)| ==> q(CollapseRuns(s, p, r)[i])
  {
    var t := CollapseRuns(s, p, r);
    forall i | 0 <= i < |t|
      ensures q(t[i])
    {
      if t[i] != r {
        var j :| 0 <= j < |s| && s[j] == t[i];
      }
    }
  }

  lemma TakeKeepsClean(c: string)
    requires NoReserved(c) && NoSpace(c) && NoTwoInARow(c, IsDash)
    ensures Clean(Take100(c))
  {
    var t := Take100(c);
    assert forall i :: 0 <= i < |t| ==> t[i] == c[i];
  }

  lemma SanitizeKeepsClean(t: string)
    requires Clean(t)
    ensures Sanitize(t) == t
  {
    ReplaceReservedSpec(t);
    CollapseRunsIdentity(t, IsSpace, '-');
    CollapseRunsIdentity(t, IsDash, '-');
  }

  // ---------------------------------------------------------------------
  // Extensions (background.js)

  /** `getExtensionFromMime`'s table, also the filename handler's (background.js:733-744, 331-339). */
  const MimeTable: map<string, string> := map[
    "image/png" := ".png", "image/jpeg" := ".jpg", "image/svg+xml" := ".svg",
    "application/pdf" := ".pdf", "audio/wav" := ".wav", "audio/mpeg" := ".mp3",
    "video/mp4" := ".mp4"]

  /** The smaller table of the download-created handler (background.js:199-208). */
  const CreatedMimeTable: map<string, string> := map[
    "image/png" := ".png", "image/jpeg" := ".jpg", "application/pdf" := ".pdf",
    "audio/wav" := ".wav", "audio/mpeg" := ".mp3"]

  /** `getExtensionFromMime`: "" for a type not in the table. */
  function ExtensionFromMime(mime: string): string {
    if mime in MimeTable then MimeTable[mime] else ""
  }

  /** `getExtensionFromType`: ".bin" for a type not in the table. */
  function ExtensionFromType(artifactType: string): string {
    if artifactType == "Slides" then ".pdf"
    else if artifactType == "Infographic" then ".png"
    else if artifactType == "Audio Overview" then ".wav"
    else ".bin"
  }

  /** Every table entry is a dot and a short lower-case suffix; an unknown
      MIME type has no extension and an unknown artifact type gets `.bin`. */
  lemma ExtensionTables(mime: string, artifactType: string)
    ensures mime !in MimeTable ==> ExtensionFromMime(mime) == ""
    ensures mime in MimeTable ==> |ExtensionFromMime(mime)| == 4 && ExtensionFromMime(mime)[0] == '.'
    ensures artifactType !in {"Slides", "Infographic", "Audio Overview"} ==> ExtensionFromType(artifactType) == ".bin"
    ensures ExtensionFromType(artifactType) in {".pdf", ".png", ".wav", ".bin"}
    ensures ExtensionFromMime("image/svg+xml") == ".svg" && ExtensionFromMime("video/mp4") == ".mp4"
  {
  }

  /** `filename.match(/\.[^.]+$/)`: the last dot and what follows it, when
      something follows it; "" otherwise. */
  function RegexExtension(filename: string): string {
    var k := LastIndexOf(filename, '.');
    if 0 <= k < |filename| - 1 then filename[k..] else ""
  }

  /** `filename.substring(filename.lastIndexOf('.'))` when the name has a dot. */
  function LastDotExtension(filename: string): Option<string> {
    var k := LastIndexOf(filename, '.');
    if k >= 0 then Some(filename[k..]) else None
  }

  /** The extension the download-created handler gives the re-download: from
      the file name, else from its small MIME table, else from the pending
      artifact type, else none (background.js:190-217). */
  function CreatedExtension(filename: string, mime: string, pendingType: Option<string>): string {
    var fromName := RegexExtension(filename);
    if fromName != "" then fromName
    else
      var fromMime := if mime in CreatedMimeTable then CreatedMimeTable[mime] else "";
      if fromMime != "" then fromMime
      else if pendingType == Some("Infographic") then ".png"
      else if pendingType == Some("Slides") then ".pdf"
      else if pendingType == Some("Audio Overview") then ".wav"
      else ""
  }

  /** The extension the filename handler gives a renamed download: from the
      file name when it has a dot, else from the full MIME table
      (background.js:323-341). */
  function DeterminedExtension(filename: string, mime: string): string {
    match LastDotExtension(filename)
    case Some(e) => e
    case None => ExtensionFromMime(mime)
  }

  /** On a name with a dot followed by something, the extension the
      created handler finds in the name (which it then takes, by
      `CreatedOfName`) is the one the filename handler takes: the name's
      last dot and what follows. */
  lemma ExtensionFromName(filename: string, mime: string)
    ensures var k := LastIndexOf(filename, '.');
            0 <= k < |filename| - 1 ==>
              && RegexExtension(filename) == DeterminedExtension(filename, mime) == filename[k..]
              && RegexExtension(filename) != ""
  {
    var k := LastIndexOf(filename, '.');
    if 0 <= k < |filename| - 1 {
      assert filename[k..][0] == '.';
      DeterminedOfDot(filename, mime);
    }
  }

  /** The created handler takes a name's extension when it has one. */
  lemma CreatedOfName(filename: string, mime: string, pendingType: Option<string>)
    requires RegexExtension(filename) != ""
    ensures CreatedExtension(filename, mime, pendingType) == RegexExtension(filename)
  {
  }

  /** The filename handler takes what follows a name's last dot, the dot
      included. */
  lemma DeterminedOfDot(filename: string, mime: string)
    requires LastIndexOf(filename, '.') >= 0
    ensures DeterminedExtension(filename, mime) == filename[LastIndexOf(filename, '.')..]
  {
  }

  /** On a name ending in a dot the filename handler keeps the bare dot
      while the created handler finds no extension in the name. */
  lemma ExtensionOfTrailingDot(filename: string)
    requires |filename| > 0 && filename[|filename| - 1] == '.'
    ensures DeterminedExtension(filename, "") == "." && RegexExtension(filename) == ""
  {
    assert filename[|filename| - 1..] == ".";
  }

  /** Without a dot in the name, the handlers agree on the MIME types of
      the smaller table and disagree on the two only the larger one has. */
  lemma ExtensionFromMimeTables(filename: string, mime: string, pendingType: Option<string>)
    requires '.' !in filename
    ensures mime in CreatedMimeTable ==> CreatedExtension(filename, mime, pendingType) == DeterminedExtension(filename, mime)
    ensures mime in MimeTable && mime !in CreatedMimeTable && pendingType.None? ==>
              CreatedExtension(filename, mime, pendingType) == "" != DeterminedExtension(filename, mime)
  {
    assert RegexExtension(filename) == "";
    assert LastDotExtension(filename) == None;
  }
}
