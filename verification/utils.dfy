/** The helpers of `utils.py`: form validation, retention of generated
    media (keep the newest N, then drop those past an age cutoff), and
    filename sanitising. The directory is a listing of file records; the
    clock reading and the names whose deletion fails are parameters. */
module Utils {
  import opened Chars
  import opened Options
  import opened Sorting
  import Storage

  // ---------------------------------------------------------------------
  // validate_input

  const RequiredMessage := "Text and title are required"
  const InvalidCharsMessage := "Invalid characters in input"
  const DefaultMaxTextLength := 2000
  const DefaultMaxTitleLength := 100

  /** The two form fields the check reads; `None` is a missing field. */
  datatype Form = Form(text: Option<string>, title: Option<string>)

  /** The two configured limits; `None` is an unset key. */
  datatype Limits = Limits(maxTextLength: Option<int>, maxTitleLength: Option<int>)

  /** `form_data.get('text', '')`. */
  function TextField(form: Form): string {
    form.text.GetOr("")
  }

  /** `form_data.get('title', '')`. */
  function TitleField(form: Form): string {
    form.title.GetOr("")
  }

  /** `config.get('MAX_TEXT_LENGTH', 2000)`. */
  function MaxTextLength(config: Limits): int {
    config.maxTextLength.GetOr(DefaultMaxTextLength)
  }

  /** `config.get('MAX_TITLE_LENGTH', 100)`. */
  function MaxTitleLength(config: Limits): int {
    config.maxTitleLength.GetOr(DefaultMaxTitleLength)
  }

  function TextTooLongMessage(max: int): string {
    "Text too long (max " + IntToString(max) + " characters)"
  }

  function TitleTooLongMessage(max: int): string {
    "Title too long (max " + IntToString(max) + " characters)"
  }

  /** The characters of the content filter `[<>"\']`. */
  predicate IsForbidden(c: char) {
    c == '<' || c == '>' || c == '"' || c == '\''
  }

  predicate HasForbidden(s: string) {
    exists i :: 0 <= i < |s| && IsForbidden(s[i])
  }

  /** `validate_input`: `None` when the form is acceptable, otherwise the
      message of the first failing check, in the order: both fields present
      after stripping, text length, title length, content filter. */
  function ValidateInput(form: Form, config: Limits): (err: Option<string>) {
    var text := Strip(TextField(form));
    var title := Strip(TitleField(form));
    if text == "" || title == "" then Some(RequiredMessage)
    else if |text| > MaxTextLength(config) then Some(TextTooLongMessage(MaxTextLength(config)))
    else if |title| > MaxTitleLength(config) then Some(TitleTooLongMessage(MaxTitleLength(config)))
    else if HasForbidden(text + title) then Some(InvalidCharsMessage)
    else None
  }

  lemma HasForbiddenAppend(a: string, b: string)
    ensures HasForbidden(a + b) <==> HasForbidden(a) || HasForbidden(b)
  {
    if HasForbidden(a + b) {
      var i :| 0 <= i < |a + b| && IsForbidden((a + b)[i]);
      if i >= |a| {
        assert b[i - |a|] == (a + b)[i];
      }
    }
    if HasForbidden(a) {
      var i :| 0 <= i < |a| && IsForbidden(a[i]);
      assert (a + b)[i] == a[i];
    }
    if HasForbidden(b) {
      var i :| 0 <= i < |b| && IsForbidden(b[i]);
      assert (a + b)[|a| + i] == b[i];
    }
  }

  /** Dropping leading whitespace keeps the forbidden characters. */
  lemma DropSpacePrefix(s: string, n: nat)
    requires n <= |s| && AllSpace(s[..n])
    ensures HasForbidden(s[n..]) <==> HasForbidden(s)
  {
    if HasForbidden(s[n..]) {
      var k :| 0 <= k < |s[n..]| && IsForbidden(s[n..][k]);
      assert s[n + k] == s[n..][k];
    }
    if HasForbidden(s) {
      var k :| 0 <= k < |s| && IsForbidden(s[k]);
      if k < n {
        assert s[..n][k] == s[k];
      } else {
        assert s[n..][k - n] == s[k];
      }
    }
  }

  /** Dropping trailing whitespace keeps the forbidden characters. */
  lemma DropSpaceSuffix(s: string, n: nat)
    requires n <= |s| && AllSpace(s[n..])
    ensures HasForbidden(s[..n]) <==> HasForbidden(s)
  {
    if HasForbidden(s[..n]) {
      var k :| 0 <= k < |s[..n]| && IsForbidden(s[..n][k]);
      assert s[k] == s[..n][k];
    }
    if HasForbidden(s) {
      var k :| 0 <= k < |s| && IsForbidden(s[k]);
      if k < n {
        assert s[..n][k] == s[k];
      } else {
        assert s[n..][k - n] == s[k];
      }
    }
  }

  /** Stripping removes only whitespace, so it neither adds nor removes a
      forbidden character. */
  lemma StripKeepsForbidden(s: string)
    ensures HasForbidden(Strip(s)) <==> HasForbidden(s)
  {
    var l := StripLeft(s);
    DropSpacePrefix(s, |s| - |l|);
    var r := StripRight(l);
    DropSpaceSuffix(l, |r|);
  }

  /** The form is accepted exactly when both raw fields hold a non-space
      character, the stripped text and title are within their limits
      (a length equal to the limit passes), and neither field contains any
      of `< > " '`. */
  lemma ValidateInputAcceptsIff(form: Form, config: Limits)
    ensures var text := TextField(form);
      var title := TitleField(form);
      ValidateInput(form, config) == None <==>
        && !AllSpace(text) && !AllSpace(title)
        && |Strip(text)| <= MaxTextLength(config)
        && |Strip(title)| <= MaxTitleLength(config)
        && !HasForbidden(text) && !HasForbidden(title)
  {
    var text := TextField(form);
    var title := TitleField(form);
    StripEmptyIffBlank(text);
    StripEmptyIffBlank(title);
    StripKeepsForbidden(text);
    StripKeepsForbidden(title);
    HasForbiddenAppend(Strip(text), Strip(title));
  }

  /** The four messages differ, so a returned message names the check that
      failed; and each is returned exactly when its check is the first to
      fail. */
  lemma ValidateInputFirstFailure(form: Form, config: Limits)
    ensures var text := Strip(TextField(form));
      var title := Strip(TitleField(form));
      var err := ValidateInput(form, config);
      && (err == Some(RequiredMessage) <==> text == "" || title == "")
      && (err == Some(TextTooLongMessage(MaxTextLength(config))) <==>
           text != "" && title != "" && |text| > MaxTextLength(config))
      && (err == Some(TitleTooLongMessage(MaxTitleLength(config))) <==>
           text != "" && title != "" && |text| <= MaxTextLength(config) && |title| > MaxTitleLength(config))
      && (err == Some(InvalidCharsMessage) <==>
           text != "" && title != "" && |text| <= MaxTextLength(config) && |title| <= MaxTitleLength(config)
           && HasForbidden(text + title))
  {
    MessagesDistinct(MaxTextLength(config), MaxTitleLength(config));
  }

  lemma MessagesDistinct(maxText: int, maxTitle: int)
    ensures var mt := TextTooLongMessage(maxText);
      var mi := TitleTooLongMessage(maxTitle);
      && RequiredMessage != mt && RequiredMessage != mi && mt != mi
      && InvalidCharsMessage != mt && InvalidCharsMessage != mi && InvalidCharsMessage != RequiredMessage
  {
    TextMessageHead(maxText);
    TitleMessageHead(maxTitle);
    FixedMessageHeads();
  }

  lemma FixedMessageHeads()
    ensures |RequiredMessage| > 5 && RequiredMessage[0] == 'T' && RequiredMessage[1] == 'e' && RequiredMessage[5] == 'a'
    ensures |InvalidCharsMessage| > 0 && InvalidCharsMessage[0] == 'I'
  {
  }

  lemma TextMessageHead(max: int)
    ensures var m := TextTooLongMessage(max);
      |m| > 5 && m[0] == 'T' && m[1] == 'e' && m[5] == 't'
  {
    var m := TextTooLongMessage(max);
    assert m[..6] == "Text t";
  }

  lemma TitleMessageHead(max: int)
    ensures var m := TitleTooLongMessage(max);
      |m| > 1 && m[0] == 'T' && m[1] == 'i'
  {
    var m := TitleTooLongMessage(max);
    assert m[..2] == "Ti";
  }

  /** With no configured limits the text limit is 2000 characters: a
      well-formed text of up to 2000 characters passes, a longer one fails
      with the message quoting 2000. */
  lemma ValidateInputDefaultLimit(text: string, title: string)
    requires text != "" && title != ""
    requires Strip(text) == text && Strip(title) == title
    requires |title| <= DefaultMaxTitleLength && !HasForbidden(text + title)
    ensures var err := ValidateInput(Form(Some(text), Some(title)), Limits(None, None));
      && (|text| <= 2000 ==> err == None)
      && (|text| > 2000 ==> err == Some("Text too long (max 2000 characters)"))
  {
    DefaultTextMessage();
  }

  /** With no configured limits the title limit is 100 characters: a
      well-formed title of up to 100 characters passes, a longer one fails
      with the message quoting 100. */
  lemma ValidateInputDefaultTitleLimit(text: string, title: string)
    requires text != "" && title != ""
    requires Strip(text) == text && Strip(title) == title
    requires |text| <= DefaultMaxTextLength && !HasForbidden(text + title)
    ensures var err := ValidateInput(Form(Some(text), Some(title)), Limits(None, None));
      && (|title| <= 100 ==> err == None)
      && (|title| > 100 ==> err == Some("Title too long (max 100 characters)"))
  {
    DefaultTitleMessage();
  }

  lemma DefaultTitleMessage()
    ensures TitleTooLongMessage(100) == "Title too long (max 100 characters)"
  {
    assert NatToString(100) == "100" by {
      assert NatToString(1) == "1";
      assert NatToString(10) == "10";
    }
  }

  lemma DefaultTextMessage()
    ensures TextTooLongMessage(2000) == "Text too long (max 2000 characters)"
  {
    assert NatToString(2000) == "2000" by {
      assert NatToString(2) == "2";
      assert NatToString(20) == "20";
      assert NatToString(200) == "200";
    }
  }

  // ---------------------------------------------------------------------
  // cleanup_old_files (retention)

  type FileRecord = Storage.FileRecord

  predicate EndsWith(s: string, suffix: string) {
    |suffix| <= |s| && s[|s| - |suffix|..] == suffix
  }

  /** The generated media the retention pass considers. */
  predicate IsMedia(name: string) {
    EndsWith(name, ".mp4") || EndsWith(name, ".png") || EndsWith(name, ".mp3")
  }

  function MediaFiles(listing: seq<FileRecord>): (r: seq<FileRecord>)
    ensures forall f :: f in r <==> f in listing && IsMedia(f.name)
  {
    if |listing| == 0 then []
    else if IsMedia(listing[0].name) then [listing[0]] + MediaFiles(listing[1..])
    else MediaFiles(listing[1..])
  }

  function NegMtime(f: FileRecord): int {
    -f.mtime
  }

  /** `files.sort(key=mtime, reverse=True)`: newest first, files with equal
      times in listing order. */
  function NewestFirst(files: seq<FileRecord>): seq<FileRecord> {
    SortByKey(files, NegMtime)
  }

  /** The index Python uses for `s[k:]` and `s[:k]` on a sequence of length
      `n`: a negative `k` counts from the end. */
  function SliceIndex(k: int, n: nat): (i: nat)
    ensures i <= n
    ensures 0 <= k <= n ==> i == k
    ensures k > n ==> i == n
    ensures k < 0 ==> i == if n + k < 0 then 0 else n + k
  {
    if k < 0 then (if n + k < 0 then 0 else n + k)
    else if k > n then n
    else k
  }

  function ModifiedBefore(files: seq<FileRecord>, cutoff: int): (r: seq<FileRecord>)
    ensures forall f :: f in r <==> f in files && f.mtime < cutoff
  {
    if |files| == 0 then []
    else if files[0].mtime < cutoff then [files[0]] + ModifiedBefore(files[1..], cutoff)
    else ModifiedBefore(files[1..], cutoff)
  }

  /** The newest `keep_count` media files. */
  function Kept(listing: seq<FileRecord>, keepCount: int): seq<FileRecord> {
    var sorted := NewestFirst(MediaFiles(listing));
    sorted[..SliceIndex(keepCount, |sorted|)]
  }

  function Cutoff(now: int, maxAgeHours: int): int {
    now - maxAgeHours * 3600
  }

  /** The files the pass tries to delete: every media file past the first
      `keep_count` newest, then each kept one modified before the cutoff. */
  function Doomed(listing: seq<FileRecord>, keepCount: int, maxAgeHours: int, now: int): seq<FileRecord> {
    var sorted := NewestFirst(MediaFiles(listing));
    var k := SliceIndex(keepCount, |sorted|);
    sorted[k..] + ModifiedBefore(sorted[..k], Cutoff(now, maxAgeHours))
  }

  function WithoutNames(listing: seq<FileRecord>, names: set<string>): (r: seq<FileRecord>)
    ensures forall f :: f in r <==> f in listing && f.name !in names
  {
    if |listing| == 0 then []
    else if listing[0].name in names then WithoutNames(listing[1..], names)
    else [listing[0]] + WithoutNames(listing[1..], names)
  }

  /** `cleanup_old_files(directory, keep_count, max_age_hours)`: nothing
      happens to a missing directory; otherwise the doomed files are
      removed, except those whose deletion fails. */
  function RetainMedia(dir: Option<seq<FileRecord>>, keepCount: int, maxAgeHours: int, now: int,
                       undeletable: set<string>): (after: Option<seq<FileRecord>>)
    ensures dir.None? <==> after.None?
    ensures after.Some? ==> forall f :: f in after.value ==> f in dir.value
  {
    match dir
    case None => None
    case Some(listing) =>
      Some(WithoutNames(listing, Storage.NameSet(Doomed(listing, keepCount, maxAgeHours, now)) - undeletable))
  }

  lemma {:induction false} MediaDistinct(listing: seq<FileRecord>)
    requires Storage.DistinctFileNames(listing)
    ensures Storage.DistinctFileNames(MediaFiles(listing))
  {
    if |listing| > 0 {
      Storage.DistinctTail(listing);
      MediaDistinct(listing[1..]);
      if IsMedia(listing[0].name) {
        Storage.DistinctCons(listing[0], MediaFiles(listing[1..]));
      }
    }
  }

  /** In a distinct-named sequence a member lies in the first `k` exactly
      when it does not lie in the rest. */
  lemma PrefixOrSuffix(s: seq<FileRecord>, k: nat, x: FileRecord)
    requires Storage.DistinctFileNames(s) && k <= |s| && x in s
    ensures x in s[k..] <==> x !in s[..k]
  {
    var m :| 0 <= m < |s| && s[m] == x;
    if m < k {
      assert s[..k][m] == x;
      forall j | 0 <= j < |s| - k ensures s[k..][j] != x {
        assert s[k..][j] == s[k + j];
      }
    } else {
      assert s[k..][m - k] == x;
      forall j | 0 <= j < k ensures s[..k][j] != x {
        assert s[..k][j] == s[j];
      }
    }
  }

  /** Retention keeps every non-media file and every file whose deletion
      fails; a deletable media file survives exactly when it is among the
      newest `keep_count` and was modified at or after the cutoff. */
  lemma RetainMediaEffect(listing: seq<FileRecord>, keepCount: int, maxAgeHours: int, now: int,
                          undeletable: set<string>)
    requires Storage.DistinctFileNames(listing)
    ensures var after := RetainMedia(Some(listing), keepCount, maxAgeHours, now, undeletable).value;
      forall f :: f in listing ==>
        (f in after <==>
          || !IsMedia(f.name)
          || f.name in undeletable
          || (f in Kept(listing, keepCount) && f.mtime >= Cutoff(now, maxAgeHours)))
  {
    DoomedNames(listing, keepCount, maxAgeHours, now);
  }

  /** The files dropped by splitting at `k` all come from the sequence. */
  lemma SplitMembers(s: seq<FileRecord>, k: nat, cutoff: int)
    requires k <= |s|
    ensures forall d :: d in s[k..] + ModifiedBefore(s[..k], cutoff) ==> d in s
  {
    forall d | d in s[k..] + ModifiedBefore(s[..k], cutoff) ensures d in s {
      if d in s[k..] {
        var j :| 0 <= j < |s[k..]| && s[k..][j] == d;
        assert s[k + j] == d;
      } else {
        var j :| 0 <= j < k && s[..k][j] == d;
        assert s[j] == d;
      }
    }
  }

  /** Every file the pass tries to delete is a media file of the listing. */
  lemma DoomedAreMedia(listing: seq<FileRecord>, keepCount: int, maxAgeHours: int, now: int)
    ensures forall d :: d in Doomed(listing, keepCount, maxAgeHours, now) ==>
      d in NewestFirst(MediaFiles(listing)) && d in listing && IsMedia(d.name)
  {
    var media := MediaFiles(listing);
    var sorted := NewestFirst(media);
    SplitMembers(sorted, SliceIndex(keepCount, |sorted|), Cutoff(now, maxAgeHours));
    forall d | d in sorted ensures d in media {
      assert d in multiset(sorted);
    }
  }

  /** A file's name is among those the pass tries to delete exactly when it
      is a media file that is not both kept and new enough. */
  lemma DoomedNames(listing: seq<FileRecord>, keepCount: int, maxAgeHours: int, now: int)
    requires Storage.DistinctFileNames(listing)
    ensures forall f :: f in listing ==>
      (f.name in Storage.NameSet(Doomed(listing, keepCount, maxAgeHours, now)) <==>
        IsMedia(f.name) && !(f in Kept(listing, keepCount) && f.mtime >= Cutoff(now, maxAgeHours)))
  {
    var media := MediaFiles(listing);
    var sorted := NewestFirst(media);
    var k := SliceIndex(keepCount, |sorted|);
    var doomed := Doomed(listing, keepCount, maxAgeHours, now);
    MediaDistinct(listing);
    Storage.SortedDistinct(media, sorted);
    DoomedAreMedia(listing, keepCount, maxAgeHours, now);
    forall f | f in listing
      ensures f.name in Storage.NameSet(doomed) <==>
        IsMedia(f.name) && !(f in sorted[..k] && f.mtime >= Cutoff(now, maxAgeHours))
    {
      if f.name in Storage.NameSet(doomed) {
        var d :| d in doomed && d.name == f.name;
        Storage.SameNameSameFile(listing, f, d);
      }
      if IsMedia(f.name) {
        assert f in multiset(media);
        assert f in sorted;
        PrefixOrSuffix(sorted, k, f);
      }
    }
  }

  /** A deletable media file that survives is at least as new as every
      media file beyond the newest `keep_count`. */
  lemma RetainMediaKeepsNewest(listing: seq<FileRecord>, keepCount: int, maxAgeHours: int, now: int,
                               undeletable: set<string>, f: FileRecord, g: FileRecord)
    requires Storage.DistinctFileNames(listing)
    requires f in listing && IsMedia(f.name) && f.name !in undeletable
    requires f in RetainMedia(Some(listing), keepCount, maxAgeHours, now, undeletable).value
    requires g in listing && IsMedia(g.name) && g !in Kept(listing, keepCount)
    ensures g.mtime <= f.mtime
  {
    var media := MediaFiles(listing);
    var sorted := NewestFirst(media);
    var k := SliceIndex(keepCount, |sorted|);
    RetainMediaEffect(listing, keepCount, maxAgeHours, now, undeletable);
    assert f in sorted[..k];
    SortByKeySorted(media, NegMtime);
    assert g in multiset(media);
    assert g in sorted;
    PrefixNewer(sorted, k, f, g);
  }

  /** In a sequence sorted newest first, a member of the first `k` is at
      least as new as a member outside them. */
  lemma PrefixNewer(s: seq<FileRecord>, k: nat, f: FileRecord, g: FileRecord)
    requires SortedBy(s, NegMtime) && k <= |s|
    requires f in s[..k] && g in s && g !in s[..k]
    ensures g.mtime <= f.mtime
  {
    var a :| 0 <= a < k && s[..k][a] == f;
    var b :| 0 <= b < |s| && s[b] == g;
    assert s[a] == f;
    assert forall i :: 0 <= i < k ==> s[i] in s[..k] by {
      forall i | 0 <= i < k ensures s[i] in s[..k] {
        assert s[..k][i] == s[i];
      }
    }
    assert k <= b;
    assert NegMtime(s[a]) <= NegMtime(s[b]);
  }

  // ---------------------------------------------------------------------
  // sanitize_filename

  const MaxFilenameLength := 100

  /** The characters of `[<>:"/\\|?*]`. */
  predicate IsUnsafe(c: char) {
    c == '<' || c == '>' || c == ':' || c == '"' || c == '/' || c == '\\' || c == '|' || c == '?' || c == '*'
  }

  function SafeChar(c: char): char {
    if IsUnsafe(c) then '_' else c
  }

  predicate NoUnsafe(s: string) {
    forall i :: 0 <= i < |s| ==> !IsUnsafe(s[i])
  }

  /** `sanitize_filename`: each unsafe character replaced by `_`, then the
      first 100 characters. */
  function SanitizeFilename(name: string): (r: string)
    ensures |r| == if |name| > MaxFilenameLength then MaxFilenameLength else |name|
    ensures forall i :: 0 <= i < |r| ==> r[i] == SafeChar(name[i])
    ensures NoUnsafe(r)
  {
    var replaced := seq(|name|, i requires 0 <= i < |name| => SafeChar(name[i]));
    if |replaced| > MaxFilenameLength then replaced[..MaxFilenameLength] else replaced
  }

  /** Sanitising leaves a safe name of at most 100 characters as it is, so
      sanitising twice is sanitising once; a name is unchanged exactly when
      it is already safe and short enough. */
  lemma SanitizeFilenameIdempotent(name: string)
    ensures SanitizeFilename(SanitizeFilename(name)) == SanitizeFilename(name)
    ensures SanitizeFilename(name) == name <==> NoUnsafe(name) && |name| <= MaxFilenameLength
  {
    var r := SanitizeFilename(name);
    var rr := SanitizeFilename(r);
    assert |rr| == |r|;
    forall i | 0 <= i < |r| ensures rr[i] == r[i] {
    }
    if NoUnsafe(name) && |name| <= MaxFilenameLength {
      forall i | 0 <= i < |name| ensures r[i] == name[i] {
      }
    }
  }
}
