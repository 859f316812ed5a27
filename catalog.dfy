/**
 * The text editing the handler performs on the catalog `repo.xml`: escaping
 * the line breaks of the README, naming the mod after its object key,
 * serialising the `<mod>` record, and splicing that record into the catalog
 * (replacing the mod's existing record or appending a new one before
 * `</mod_list>`). All of it is `find`, slicing, concatenation and `replace`
 * on text, with no parsing of the markup.
 */
module Catalog {
  import opened PyText
  import opened PyPath
  import opened UrlQuote

  /** What every line break of the README becomes: an escaped CR LF pair. */
  const LineBreakEntity: string := "&#13;&#10;"

  const ModClose: string := "</mod>"
  const ListClose: string := "</mod_list>"

  // ---------------------------------------------------------------------------
  // README sanitisation

  /**
   * The README as it is embedded in the record: `\r\n`, then a bare `\r`,
   * then a bare `\n` are each replaced by `&#13;&#10;`, in that order.
   */
  function Sanitize(readme: string): (r: string)
    ensures '\r' !in r && '\n' !in r
  {
    var crlf := Replace(readme, "\r\n", LineBreakEntity);
    var cr := Replace(crlf, "\r", LineBreakEntity);
    ReplaceRemovesChar(crlf, '\r', LineBreakEntity);
    ReplaceKeepsCharOut(cr, "\n", LineBreakEntity, '\r');
    ReplaceRemovesChar(cr, '\n', LineBreakEntity);
    Replace(cr, "\n", LineBreakEntity)
  }

  /**
   * The intended reading of the sanitisation, one line ending at a time: a
   * CR LF pair, a lone CR and a lone LF each become one `&#13;&#10;`, and
   * every other character is kept.
   */
  function EscapeLineBreaks(s: string): (r: string)
    ensures '\r' !in r && '\n' !in r
    decreases |s|
  {
    if s == [] then []
    else if |s| >= 2 && s[0] == '\r' && s[1] == '\n' then LineBreakEntity + EscapeLineBreaks(s[2..])
    else if s[0] == '\r' || s[0] == '\n' then LineBreakEntity + EscapeLineBreaks(s[1..])
    else [s[0]] + EscapeLineBreaks(s[1..])
  }

  /** The two single-character replacements that follow the CR LF one. */
  function ReplaceLoneBreaks(s: string): string
  {
    Replace(Replace(s, "\r", LineBreakEntity), "\n", LineBreakEntity)
  }

  lemma ReplaceLoneBreaksConcat(a: string, b: string)
    ensures ReplaceLoneBreaks(a + b) == ReplaceLoneBreaks(a) + ReplaceLoneBreaks(b)
  {
    ReplaceCharConcat(a, b, '\r', LineBreakEntity);
    ReplaceCharConcat(Replace(a, "\r", LineBreakEntity), Replace(b, "\r", LineBreakEntity), '\n', LineBreakEntity);
  }

  /** What the two single-character replacements do to one character. */
  lemma ReplaceLoneBreaksChar(c: char)
    ensures ReplaceLoneBreaks([c]) == if c == '\r' || c == '\n' then LineBreakEntity else [c]
  {
    var once := Replace([c], "\r", LineBreakEntity);
    assert Replace([], "\r", LineBreakEntity) == [];
    assert Replace([], "\n", LineBreakEntity) == [];
    if c == '\r' {
      assert once == LineBreakEntity;
      NoCharNoOccurrence(LineBreakEntity, '\n');
    } else {
      assert once == [c];
    }
  }

  lemma NoCharNoOccurrence(s: string, c: char)
    requires c !in s
    ensures !Occurs(s, [c])
  {
    forall k | 0 <= k <= |s|
      ensures !OccursAt(s, [c], k)
    {
      assert k < |s| ==> s[k..k + 1] == [s[k]];
    }
  }

  /** How the CR LF replacement consumes the head of a non-empty text. */
  lemma ReplaceCrLfStep(s: string, rep: string)
    requires s != []
    ensures Replace(s, "\r\n", rep)
         == if |s| >= 2 && s[0] == '\r' && s[1] == '\n'
            then rep + Replace(s[2..], "\r\n", rep)
            else [s[0]] + Replace(s[1..], "\r\n", rep)
  {
    ReplaceStep(s, "\r\n", rep);
    if |s| >= 2 {
      assert s[..2] == [s[0], s[1]];
    }
  }

  /** The sanitisation is the CR LF replacement followed by the two single-character ones. */
  lemma SanitizeInTwoStages(s: string)
    ensures Sanitize(s) == ReplaceLoneBreaks(Replace(s, "\r\n", LineBreakEntity))
  {
  }

  /** The entity itself holds no line break, so the later replacements leave it alone. */
  lemma LoneBreaksKeepEntity()
    ensures ReplaceLoneBreaks(LineBreakEntity) == LineBreakEntity
  {
    NoCharNoOccurrence(LineBreakEntity, '\r');
    NoCharNoOccurrence(LineBreakEntity, '\n');
  }

  /**
   * The chained replacements escape each line ending exactly once: a CR LF
   * pair gives one `&#13;&#10;`, not two.
   */
  lemma {:induction false} SanitizeEscapesEachLineBreak(s: string)
    ensures Sanitize(s) == EscapeLineBreaks(s)
    decreases |s|
  {
    SanitizeInTwoStages(s);
    if s != [] {
      ReplaceCrLfStep(s, LineBreakEntity);
      if |s| >= 2 && s[0] == '\r' && s[1] == '\n' {
        var rest := s[2..];
        SanitizeEscapesEachLineBreak(rest);
        SanitizeInTwoStages(rest);
        ReplaceLoneBreaksConcat(LineBreakEntity, Replace(rest, "\r\n", LineBreakEntity));
        LoneBreaksKeepEntity();
      } else {
        var rest := s[1..];
        SanitizeEscapesEachLineBreak(rest);
        SanitizeInTwoStages(rest);
        ReplaceLoneBreaksConcat([s[0]], Replace(rest, "\r\n", LineBreakEntity));
        ReplaceLoneBreaksChar(s[0]);
      }
    }
  }

  /** Text without line breaks passes through the reference escaping unchanged. */
  lemma {:induction false} EscapeKeepsPlainText(s: string)
    requires '\r' !in s && '\n' !in s
    ensures EscapeLineBreaks(s) == s
    decreases |s|
  {
    if s != [] {
      EscapeKeepsPlainText(s[1..]);
      assert s == [s[0]] + s[1..];
    }
  }

  /** Text without line breaks is its own sanitised form. */
  lemma SanitizeKeepsPlainText(s: string)
    requires '\r' !in s && '\n' !in s
    ensures Sanitize(s) == s
  {
    SanitizeEscapesEachLineBreak(s);
    EscapeKeepsPlainText(s);
  }

  /** Sanitising twice is sanitising once. */
  lemma SanitizeIdempotent(s: string)
    ensures Sanitize(Sanitize(s)) == Sanitize(s)
  {
    SanitizeKeepsPlainText(Sanitize(s));
  }

  /** The escaping adds no character that is not in the text or in `&#13;&#10;`. */
  lemma {:induction false} EscapeKeepsCharOut(s: string, c: char)
    requires c !in s && c !in LineBreakEntity
    ensures c !in EscapeLineBreaks(s)
    decreases |s|
  {
    if s != [] {
      if |s| >= 2 && s[0] == '\r' && s[1] == '\n' {
        EscapeKeepsCharOut(s[2..], c);
      } else {
        EscapeKeepsCharOut(s[1..], c);
      }
    }
  }

  lemma SanitizeKeepsCharOut(s: string, c: char)
    requires c !in s && c !in LineBreakEntity
    ensures c !in Sanitize(s)
  {
    SanitizeEscapesEachLineBreak(s);
    EscapeKeepsCharOut(s, c);
  }

  // ---------------------------------------------------------------------------
  // Mod name

  /** `os.path.splitext(os.path.basename(key))[0]`. */
  function ModName(key: string): (name: string)
    ensures '/' !in name
    ensures |name| <= |Basename(key)| && name == Basename(key)[..|name|]
  {
    SplitExt(Basename(key)).0
  }

  /**
   * The mod name is the last `/`-separated segment of the key with its final
   * extension removed; a segment whose only dots are leading ones (`.zip`)
   * or that has no dot keeps its whole text.
   */
  lemma ModNameDropsLastExtension(key: string)
    ensures var base, name := Basename(key), ModName(key);
            && (name != base <==> HasExtension(base))
            && (HasExtension(base) ==> base[|name|] == '.' && '.' !in base[|name| + 1..])
  {
    var base := Basename(key);
    SplitExtOfFileName(base);
    assert base == SplitExt(base).0 + SplitExt(base).1;
    assert base[|ModName(key)|..] == SplitExt(base).1;
  }

  /** The key's last segment is the text after its folder, when the folder is empty or ends in `/`. */
  lemma BasenameAfterFolder(folder: string, base: string)
    requires folder == [] || folder[|folder| - 1] == '/'
    requires '/' !in base
    ensures Basename(folder + base) == base
  {
    var key := folder + base;
    assert key[|folder|..] == base;
    if folder != [] {
      LastIndexOfIs(key, '/', |folder| - 1);
    } else {
      assert key == base;
    }
  }

  /** `splitext` of `STEM.EXT`, where the stem has a character other than `.`, splits at that last dot. */
  lemma SplitExtOfStem(stem: string, ext: string)
    requires '/' !in stem && '/' !in ext && '.' !in ext
    requires exists i | 0 <= i < |stem| :: stem[i] != '.'
    ensures SplitExt(stem + "." + ext) == (stem, "." + ext)
  {
    var base := stem + "." + ext;
    assert base[|stem| + 1..] == ext;
    LastIndexOfIs(base, '.', |stem|);
    var i :| 0 <= i < |stem| && stem[i] != '.';
    assert base[i] == stem[i];
    assert base[..|stem|] == stem && base[|stem|..] == "." + ext;
  }

  /** `splitext` of `.EXT` splits nothing off. */
  lemma SplitExtOfDotFile(ext: string)
    requires '/' !in ext && '.' !in ext
    ensures SplitExt("." + ext) == ("." + ext, [])
  {
    var base := "." + ext;
    assert base[1..] == ext;
    LastIndexOfIs(base, '.', 0);
  }

  /**
   * Only the last extension goes: in any folder, `STEM.EXT` names the mod
   * `STEM` when the stem has a character other than `.` (so `a.b.zip` names
   * `a.b`).
   */
  lemma ModNameOfKey(folder: string, stem: string, ext: string)
    requires folder == [] || folder[|folder| - 1] == '/'
    requires '/' !in stem && '/' !in ext && '.' !in ext
    requires exists i | 0 <= i < |stem| :: stem[i] != '.'
    ensures ModName(folder + stem + "." + ext) == stem
  {
    var base := stem + "." + ext;
    assert folder + stem + "." + ext == folder + base;
    BasenameAfterFolder(folder, base);
    SplitExtOfStem(stem, ext);
  }

  /**
   * A leading dot does not start an extension: in any folder, `.EXT` names
   * the mod `.EXT`.
   */
  lemma ModNameOfDotFile(folder: string, ext: string)
    requires folder == [] || folder[|folder| - 1] == '/'
    requires '/' !in ext && '.' !in ext
    ensures ModName(folder + "." + ext) == "." + ext
  {
    var base := "." + ext;
    assert folder + "." + ext == folder + base;
    BasenameAfterFolder(folder, base);
    SplitExtOfDotFile(ext);
  }

  // ---------------------------------------------------------------------------
  // The record

  /** The opening of a mod's record, closing quote included: what the update searches for. */
  function OpenTag(name: string): (tag: string)
    ensures |tag| == |name| + 12 && tag[0] == '<' && tag[|tag| - 1] == '"'
  {
    "<mod name=\"" + name + "\""
  }

  /** The part of the record before its description. */
  function RecordHead(name: string, version: string, url: string): string
  {
    OpenTag(name) + " version=\"" + version + "\" url=\"" + url + "\">"
  }

  /**
   * `<mod name="N" version="V" url="BASE+quote(key)">DESC</mod>`, with the
   * sanitised README as the description.
   */
  function Record(baseUrl: string, key: string, name: string, version: string, readme: string): (rec: string)
    ensures |rec| >= |OpenTag(name)| + 6
    ensures rec[..|OpenTag(name)|] == OpenTag(name)
    ensures rec[|rec| - 6..] == ModClose
  {
    var tag := OpenTag(name);
    var head := RecordHead(name, version, baseUrl + Quote(key));
    var rec := head + Sanitize(readme) + ModClose;
    assert head[..|tag|] == tag;
    assert rec[..|tag|] == head[..|tag|];
    assert rec[|rec| - 6..] == ModClose;
    rec
  }

  /** The record is its head, the escaped README, and the closing tag. */
  lemma RecordLayout(baseUrl: string, key: string, name: string, version: string, readme: string)
    ensures Record(baseUrl, key, name, version, readme)
         == "<mod name=\"" + name + "\"" + " version=\"" + version + "\" url=\"" + (baseUrl + Quote(key)) + "\">"
            + EscapeLineBreaks(readme) + ModClose
  {
    SanitizeEscapesEachLineBreak(readme);
  }

  /**
   * With no `<` in the name, version, base URL or README, the record holds
   * `</mod>` only as its last six characters.
   */
  lemma RecordClosesOnce(baseUrl: string, key: string, name: string, version: string, readme: string)
    requires '<' !in name && '<' !in version && '<' !in baseUrl && '<' !in readme
    ensures ClosesOnlyAtEnd(Record(baseUrl, key, name, version, readme))
  {
    var desc := Sanitize(readme);
    SanitizeKeepsCharOut(readme, '<');
    forall k | 0 <= k <= |desc|
      ensures !OccursAt(desc, "</", k)
    {
      assert k + 2 <= |desc| ==> desc[k..k + 2][0] == desc[k];
    }
    RecordClosesOnceDespiteAngles(baseUrl, key, name, version, readme);
  }

  /**
   * A description may hold `<`, so long as no `<` in it is followed by `/`:
   * the text still holds `</mod>` only at its end.
   */
  lemma ClosedOnlyAtEndDespiteAngles(head: string, desc: string)
    requires |head| >= 2 && head[0] == '<' && head[1] != '/'
    requires '<' !in head[1..] && !Occurs(desc, "</")
    ensures ClosesOnlyAtEnd(head + desc + ModClose)
  {
    var rec := head + desc + ModClose;
    var h, d := |head|, |desc|;
    forall k | 0 <= k && k + 6 <= |rec| && k != |rec| - 6
      ensures !OccursAt(rec, ModClose, k)
    {
      var w := rec[k..k + 6];
      assert w[0] == rec[k] && w[1] == rec[k + 1];
      if k == 0 {
        assert rec[1] == head[1];
      } else if k < h {
        assert rec[k] == head[1..][k - 1];
      } else if k + 1 < h + d {
        assert rec[k..k + 2] == desc[k - h..k - h + 2];
        assert !OccursAt(desc, "</", k - h);
      } else if k + 1 == h + d {
        assert rec[k + 1] == '<';
      }
    }
    assert rec[|rec| - 6..] == ModClose;
  }

  /**
   * The record holds `</mod>` only at its end whenever the name, version and
   * base URL hold no `<` and the sanitised README holds no `</`: a README
   * such as `x < y` or `<YourName>` is allowed.
   */
  lemma RecordClosesOnceDespiteAngles(baseUrl: string, key: string, name: string, version: string, readme: string)
    requires '<' !in name && '<' !in version && '<' !in baseUrl
    requires !Occurs(Sanitize(readme), "</")
    ensures ClosesOnlyAtEnd(Record(baseUrl, key, name, version, readme))
  {
    var url := baseUrl + Quote(key);
    RecordHeadOpensOnce(name, version, url);
    ClosedOnlyAtEndDespiteAngles(RecordHead(name, version, url), Sanitize(readme));
  }

  lemma RecordHeadOpensOnce(name: string, version: string, url: string)
    requires '<' !in name && '<' !in version && '<' !in url
    ensures var head := RecordHead(name, version, url);
            |head| >= 2 && head[0] == '<' && head[1] == 'm' && '<' !in head[1..]
  {
    var tag := OpenTag(name);
    var attrs := " version=\"" + version + "\" url=\"" + url + "\">";
    var head := tag + attrs;
    assert RecordHead(name, version, url) == head;
    assert tag[1] == "<mod name=\""[1] == 'm';
    assert '<' !in attrs;
    forall k | 1 <= k < |head|
      ensures head[k] != '<'
    {
      if k < |tag| {
        OpenTagHasOneAngle(name, k);
      } else {
        assert head[k] == attrs[k - |tag|];
      }
    }
  }

  /**
   * The search includes the closing quote, so an opening tag matches only the
   * same name: updating `Foo` never matches a record named `FooBar`.
   */
  lemma OpenTagMatchesOnlyItsName(n1: string, n2: string, rest: string)
    requires '"' !in n1 && '"' !in n2
    requires |OpenTag(n1)| <= |OpenTag(n2) + rest|
    requires (OpenTag(n2) + rest)[..|OpenTag(n1)|] == OpenTag(n1)
    ensures n1 == n2
  {
    var s := OpenTag(n2) + rest;
    var m := if |n1| < |n2| then |n1| else |n2|;
    assert OpenTag(n1)[11 + m] == s[11 + m];
    OpenTagQuoteAt(n1, m);
    OpenTagQuoteAt(n2, m);
    assert OpenTag(n2)[11 + m] == s[11 + m];
    assert n1 == OpenTag(n1)[11..11 + |n1|] == s[11..11 + |n2|] == n2;
  }

  /** Within the opening tag, a `"` after the `name="` part marks the end of the name. */
  lemma OpenTagQuoteAt(n: string, i: nat)
    requires '"' !in n && i <= |n|
    ensures OpenTag(n)[11 + i] == '"' <==> i == |n|
  {
    if i < |n| {
      assert OpenTag(n)[11 + i] == n[i];
    }
  }

  lemma PrefixNameExample()
    ensures !OccursAt(OpenTag("FooBar"), OpenTag("Foo"), 0)
  {
    if OccursAt(OpenTag("FooBar"), OpenTag("Foo"), 0) {
      OpenTagMatchesOnlyItsName("Foo", "FooBar", []);
    }
  }

  // ---------------------------------------------------------------------------
  // Update or create

  /**
   * The splice of `lambda_handler.py`: find the first `<mod name="N"`; if
   * present, replace it through the first `</mod>` after it by the record;
   * otherwise put two spaces, the record and a newline just before the first
   * `</mod_list>`. Python's `find` gives -1 for a missing marker and the
   * slices below read -1 and 5 as Python does.
   */
  function UpdateOrCreate(catalog: string, name: string, record: string): (r: string)
    ensures |r| >= |record|
  {
    var start := Find(catalog, OpenTag(name));
    if start != -1 then
      var end := FindFrom(catalog, ModClose, start) + |ModClose|;
      SliceTo(catalog, start) + record + SliceFrom(catalog, end)
    else
      var listEnd := Find(catalog, ListClose);
      SliceTo(catalog, listEnd) + "  " + record + "\n" + SliceFrom(catalog, listEnd)
  }

  /** Whatever the catalog holds, markers or not, the record ends up in the spliced catalog. */
  lemma SpliceHoldsRecord(c: string, name: string, record: string)
    ensures Occurs(UpdateOrCreate(c, name, record), record)
  {
    var start := Find(c, OpenTag(name));
    var r := UpdateOrCreate(c, name, record);
    var before := if start != -1 then SliceTo(c, start) else SliceTo(c, Find(c, ListClose)) + "  ";
    assert r == before + record + r[|before| + |record|..];
    assert r[|before|..|before| + |record|] == record;
    assert OccursAt(r, record, |before|);
  }

  /** `s` is the first index where `sub` occurs at or after `from`. */
  predicate FirstAt(c: string, sub: string, from: nat, s: int)
  {
    from <= s && OccursAt(c, sub, s) && forall k :: from <= k < s ==> !OccursAt(c, sub, k)
  }

  lemma FindFromIsFirst(c: string, sub: string, from: nat, s: int)
    requires FirstAt(c, sub, from, s)
    ensures FindFrom(c, sub, from) == s
  {
  }

  /**
   * Update path: the text before the mod's first opening tag and the text
   * after the first `</mod>` that follows it are kept, and exactly that span
   * becomes the new record.
   */
  lemma UpdateReplacesRecordSpan(c: string, name: string, record: string, s: nat, j: nat)
    requires FirstAt(c, OpenTag(name), 0, s)
    requires FirstAt(c, ModClose, s, j)
    ensures UpdateOrCreate(c, name, record) == c[..s] + record + c[j + |ModClose|..]
  {
    FindFromIsFirst(c, OpenTag(name), 0, s);
    FindFromIsFirst(c, ModClose, s, j);
  }

  /**
   * Create path: with no record for the mod, the record is inserted on a line
   * of its own before the first `</mod_list>`; everything else keeps its
   * order and the catalog grows by the record's length plus three.
   */
  lemma CreateInsertsBeforeListEnd(c: string, name: string, record: string, i: nat)
    requires !Occurs(c, OpenTag(name))
    requires FirstAt(c, ListClose, 0, i)
    ensures UpdateOrCreate(c, name, record) == c[..i] + "  " + record + "\n" + c[i..]
    ensures |UpdateOrCreate(c, name, record)| == |c| + |record| + 3
  {
    FindFromIsFirst(c, ListClose, 0, i);
  }

  /**
   * A catalog without `</mod_list>` (and no record for the mod): `find`
   * gives -1, so the record lands before the catalog's last character.
   */
  lemma CreateWithoutListEnd(c: string, name: string, record: string)
    requires !Occurs(c, OpenTag(name)) && !Occurs(c, ListClose)
    ensures c == [] ==> UpdateOrCreate(c, name, record) == "  " + record + "\n"
    ensures c != [] ==> UpdateOrCreate(c, name, record) == c[..|c| - 1] + "  " + record + "\n" + c[|c| - 1..]
  {
  }

  /**
   * A record for the mod with no `</mod>` after it: `find` gives -1, the end
   * of the span reads as index 5, and the text from index 5 on is kept.
   */
  lemma UpdateWithoutModClose(c: string, name: string, record: string, s: nat)
    requires FirstAt(c, OpenTag(name), 0, s)
    requires forall k :: s <= k ==> !OccursAt(c, ModClose, k)
    ensures UpdateOrCreate(c, name, record) == c[..s] + record + c[5..]
  {
    FindFromIsFirst(c, OpenTag(name), 0, s);
    assert |c| >= 12;
  }

  /** A record the splice can find again: it opens with the mod's tag and holds `</mod>` only at its end. */
  ghost predicate SelfContained(record: string, name: string)
  {
    && '<' !in name
    && |record| >= |OpenTag(name)| + 6
    && record[..|OpenTag(name)|] == OpenTag(name)
    && ClosesOnlyAtEnd(record)
  }

  /** `</mod>` occurs in the record only as its last six characters. */
  ghost predicate ClosesOnlyAtEnd(record: string)
  {
    forall k :: OccursAt(record, ModClose, k) <==> k == |record| - 6
  }

  lemma OpenTagHasOneAngle(name: string, k: nat)
    requires '<' !in name && 0 < k < |OpenTag(name)|
    ensures OpenTag(name)[k] != '<'
  {
    if 11 <= k < 11 + |name| {
      assert OpenTag(name)[k] == name[k - 11];
    }
  }

  /** A record placed at `p`, after no opening tag of the mod, spans exactly what the splice searches for. */
  lemma PlacedRecordSpan(c: string, name: string, record: string, p: nat)
    requires SelfContained(record, name)
    requires p + |record| <= |c| && c[p..p + |record|] == record
    requires forall k :: 0 <= k < p ==> !OccursAt(c, OpenTag(name), k)
    ensures FirstAt(c, OpenTag(name), 0, p) && FirstAt(c, ModClose, p, p + |record| - 6)
  {
    var tag := OpenTag(name);
    SliceOfSlice(c, p, p + |record|, 0, |tag|);
    assert OccursAt(c, tag, p);
    var j := p + |record| - 6;
    assert OccursAt(record, ModClose, |record| - 6);
    SliceOfSlice(c, p, p + |record|, |record| - 6, |record|);
    assert OccursAt(c, ModClose, j);
    forall k | p <= k < j
      ensures !OccursAt(c, ModClose, k)
    {
      SliceOfSlice(c, p, p + |record|, k - p, k - p + 6);
      assert !OccursAt(record, ModClose, k - p);
    }
  }

  /**
   * Once a record sits at `p` with no earlier opening tag for the mod, the
   * next splice finds exactly it and puts its own record in its place.
   */
  lemma ReplacePlacedRecord(c: string, name: string, placed: string, record: string, p: nat)
    requires SelfContained(placed, name)
    requires p + |placed| <= |c| && c[p..p + |placed|] == placed
    requires forall k :: 0 <= k < p ==> !OccursAt(c, OpenTag(name), k)
    ensures UpdateOrCreate(c, name, record) == c[..p] + record + c[p + |placed|..]
  {
    PlacedRecordSpan(c, name, placed, p);
    UpdateReplacesRecordSpan(c, name, record, p, p + |placed| - 6);
  }

  /** Update path: the record lands where the old one began, after no other opening tag of the mod. */
  lemma UpdatePlacesRecord(c: string, name: string, record: string, s: nat, j: nat)
    requires SelfContained(record, name)
    requires FirstAt(c, OpenTag(name), 0, s) && FirstAt(c, ModClose, s, j)
    ensures var c' := UpdateOrCreate(c, name, record);
            && s + |record| <= |c'| && c'[s..s + |record|] == record
            && forall k :: 0 <= k < s ==> !OccursAt(c', OpenTag(name), k)
  {
    var tag := OpenTag(name);
    UpdateReplacesRecordSpan(c, name, record, s, j);
    var c' := c[..s] + record + c[j + |ModClose|..];
    assert c'[s..s + |record|] == record;
    assert c'[..s + |tag|] == c[..s + |tag|] by {
      assert c'[s..s + |tag|] == record[..|tag|] == c[s..s + |tag|];
      assert c'[..s] == c[..s];
    }
    SamePrefixSameOccurrences(c, c', tag, s);
  }

  /**
   * Create path: in the catalog with the record inserted, no opening tag of
   * the mod starts before the record.
   */
  lemma NoTagBeforeInserted(c: string, name: string, record: string, i: nat, k: nat)
    requires '<' !in name && |record| >= |OpenTag(name)| && record[..|OpenTag(name)|] == OpenTag(name)
    requires !Occurs(c, OpenTag(name)) && i <= |c| && k < i + 2
    ensures !OccursAt(c[..i] + "  " + record + "\n" + c[i..], OpenTag(name), k)
  {
    var tag := OpenTag(name);
    var c' := c[..i] + "  " + record + "\n" + c[i..];
    var n := |tag|;
    assert c'[i + 2..i + 2 + |record|] == record;
    if k >= i {
      assert k + n <= |c'| ==> c'[k..k + n][0] == c'[k] == ' ';
    } else if k + n <= i {
      assert c'[k..k + n] == c[k..k + n];
      assert !OccursAt(c, tag, k);
    } else if k + n <= i + 2 {
      assert c'[k..k + n][n - 1] == c'[k + n - 1] == ' ';
    } else {
      OpenTagHasOneAngle(name, i + 2 - k);
      assert c'[k..k + n][i + 2 - k] == c'[i + 2] == record[0] == '<';
    }
  }

  /**
   * Create path, whatever `find` gave for `</mod_list>`: the record is
   * inserted after the text before the index Python's slices read, which is
   * the first `</mod_list>`, or the last character when there is none.
   */
  lemma CreateSplicesAtListEnd(c: string, name: string, record: string)
    requires !Occurs(c, OpenTag(name))
    ensures var i := SliceIndex(Find(c, ListClose), |c|);
            UpdateOrCreate(c, name, record) == c[..i] + "  " + record + "\n" + c[i..]
  {
  }

  /** A record inserted at `i + 2` into a text without the mod's tag stands after no opening tag of the mod. */
  lemma InsertedRecordPlaced(c: string, name: string, record: string, i: nat)
    requires SelfContained(record, name) && !Occurs(c, OpenTag(name)) && i <= |c|
    ensures var c' := c[..i] + "  " + record + "\n" + c[i..];
            && i + 2 + |record| <= |c'| && c'[i + 2..i + 2 + |record|] == record
            && forall k :: 0 <= k < i + 2 ==> !OccursAt(c', OpenTag(name), k)
  {
    var c' := c[..i] + "  " + record + "\n" + c[i..];
    assert c'[i + 2..i + 2 + |record|] == record;
    forall k | 0 <= k < i + 2
      ensures !OccursAt(c', OpenTag(name), k)
    {
      NoTagBeforeInserted(c, name, record, i, k);
    }
  }

  /** Create path: the record lands two characters after the insertion point, after no opening tag of the mod. */
  lemma CreatePlacesRecord(c: string, name: string, record: string)
    requires SelfContained(record, name) && !Occurs(c, OpenTag(name))
    ensures var i, c' := SliceIndex(Find(c, ListClose), |c|), UpdateOrCreate(c, name, record);
            && i + 2 + |record| <= |c'| && c'[i + 2..i + 2 + |record|] == record
            && forall k :: 0 <= k < i + 2 ==> !OccursAt(c', OpenTag(name), k)
  {
    CreateSplicesAtListEnd(c, name, record);
    InsertedRecordPlaced(c, name, record, SliceIndex(Find(c, ListClose), |c|));
  }

  /**
   * Update path without a `</mod>` after the mod's tag: the record still
   * lands where the old one began, after no other opening tag of the mod.
   */
  lemma UnclosedUpdatePlacesRecord(c: string, name: string, record: string, s: nat)
    requires SelfContained(record, name)
    requires FirstAt(c, OpenTag(name), 0, s)
    requires forall k :: s <= k ==> !OccursAt(c, ModClose, k)
    ensures var c' := UpdateOrCreate(c, name, record);
            && s + |record| <= |c'| && c'[s..s + |record|] == record
            && forall k :: 0 <= k < s ==> !OccursAt(c', OpenTag(name), k)
  {
    var tag := OpenTag(name);
    UpdateWithoutModClose(c, name, record, s);
    var c' := c[..s] + record + c[5..];
    assert c'[s..s + |record|] == record;
    assert c'[..s + |tag|] == c[..s + |tag|] by {
      assert c'[s..s + |tag|] == record[..|tag|] == c[s..s + |tag|];
      assert c'[..s] == c[..s];
    }
    SamePrefixSameOccurrences(c, c', tag, s);
  }

  /** After the splice the record stands where the next splice will look for it. */
  lemma SplicePlacesRecord(c: string, name: string, record: string) returns (p: nat)
    requires SelfContained(record, name)
    ensures var c' := UpdateOrCreate(c, name, record);
            && p + |record| <= |c'| && c'[p..p + |record|] == record
            && forall k :: 0 <= k < p ==> !OccursAt(c', OpenTag(name), k)
  {
    var start := Find(c, OpenTag(name));
    if start != -1 {
      p := start;
      var j := FindFrom(c, ModClose, start);
      if j != -1 {
        UpdatePlacesRecord(c, name, record, start, j);
      } else {
        UnclosedUpdatePlacesRecord(c, name, record, start);
      }
    } else {
      p := SliceIndex(Find(c, ListClose), |c|) + 2;
      CreatePlacesRecord(c, name, record);
    }
  }

  /** Closed update path of `LastWriteWins`: both splices replace the same span of `c`. */
  lemma ClosedUpdateLastWriteWins(c: string, name: string, r1: string, r2: string, s: nat, j: nat)
    requires SelfContained(r1, name)
    requires FirstAt(c, OpenTag(name), 0, s) && FirstAt(c, ModClose, s, j)
    ensures UpdateOrCreate(UpdateOrCreate(c, name, r1), name, r2) == UpdateOrCreate(c, name, r2)
  {
    UpdateReplacesRecordSpan(c, name, r1, s, j);
    UpdatePlacesRecord(c, name, r1, s, j);
    var c1 := c[..s] + r1 + c[j + |ModClose|..];
    ReplacePlacedRecord(c1, name, r1, r2, s);
    assert c1[..s] == c[..s] && c1[s + |r1|..] == c[j + |ModClose|..];
    UpdateReplacesRecordSpan(c, name, r2, s, j);
  }

  /** Unclosed update path of `LastWriteWins`: both splices keep `c[5..]` after the record. */
  lemma UnclosedUpdateLastWriteWins(c: string, name: string, r1: string, r2: string, s: nat)
    requires SelfContained(r1, name)
    requires FirstAt(c, OpenTag(name), 0, s)
    requires forall k :: s <= k ==> !OccursAt(c, ModClose, k)
    ensures UpdateOrCreate(UpdateOrCreate(c, name, r1), name, r2) == UpdateOrCreate(c, name, r2)
  {
    UpdateWithoutModClose(c, name, r1, s);
    UnclosedUpdatePlacesRecord(c, name, r1, s);
    var c1 := c[..s] + r1 + c[5..];
    ReplacePlacedRecord(c1, name, r1, r2, s);
    assert c1[..s] == c[..s] && c1[s + |r1|..] == c[5..];
    UpdateWithoutModClose(c, name, r2, s);
  }

  /** Create path of `LastWriteWins`: the second splice swaps the inserted record for the new one. */
  lemma CreateLastWriteWins(c: string, name: string, r1: string, r2: string)
    requires SelfContained(r1, name) && !Occurs(c, OpenTag(name))
    ensures UpdateOrCreate(UpdateOrCreate(c, name, r1), name, r2) == UpdateOrCreate(c, name, r2)
  {
    var i := SliceIndex(Find(c, ListClose), |c|);
    CreateSplicesAtListEnd(c, name, r1);
    InsertedRecordPlaced(c, name, r1, i);
    var c1 := c[..i] + "  " + r1 + "\n" + c[i..];
    ReplacePlacedRecord(c1, name, r1, r2, i + 2);
    SwapInserted(c[..i], c[i..], r1, r2);
    CreateSplicesAtListEnd(c, name, r2);
  }

  /** Swapping the record on an inserted line keeps the text around it. */
  lemma SwapInserted(a: string, b: string, r1: string, r2: string)
    ensures var c1 := a + "  " + r1 + "\n" + b;
            c1[..|a| + 2] + r2 + c1[|a| + 2 + |r1|..] == a + "  " + r2 + "\n" + b
  {
    var c1 := a + "  " + r1 + "\n" + b;
    assert c1[..|a| + 2] == a + "  ";
    assert c1[|a| + 2 + |r1|..] == "\n" + b;
  }

  /**
   * Re-uploading a mod replaces its entry: splicing a record for the mod
   * into the catalog that already holds an earlier record for it gives the
   * catalog the later record alone would have given, on any catalog.
   */
  lemma LastWriteWins(c: string, name: string, r1: string, r2: string)
    requires SelfContained(r1, name)
    ensures UpdateOrCreate(UpdateOrCreate(c, name, r1), name, r2) == UpdateOrCreate(c, name, r2)
  {
    var start := Find(c, OpenTag(name));
    if start != -1 {
      var j := FindFrom(c, ModClose, start);
      if j != -1 {
        ClosedUpdateLastWriteWins(c, name, r1, r2, start, j);
      } else {
        UnclosedUpdateLastWriteWins(c, name, r1, r2, start);
      }
    } else {
      CreateLastWriteWins(c, name, r1, r2);
    }
  }

  /**
   * Update-or-create does not duplicate: on any catalog, markers present or
   * not, splicing the same record a second time leaves the catalog as the
   * first splice left it.
   */
  lemma UpdateOrCreateIdempotent(c: string, name: string, record: string)
    requires SelfContained(record, name)
    ensures UpdateOrCreate(UpdateOrCreate(c, name, record), name, record) == UpdateOrCreate(c, name, record)
  {
    LastWriteWins(c, name, record, record);
  }
}
