/**
  The three citation renderers of Reference: BibTeX, Harvard and DSTU. Each
  is written as the source builds it, by conditional appends; the lemmas
  describe the result as a BibTeX entry with a field list, or as a list of
  sentences, which is the layout each dialect promises.
*/
module Citations {

  import opened Text
  import opened References

  /** The text before the first comma of `authors` (all of it when there is
      no comma). */
  function FirstAuthor(authors: string): string
  {
    Split(authors, ',')[0]
  }

  /** The last space-separated word of a name. */
  function LastWord(name: string): string
  {
    var words := Split(name, ' ');
    words[|words| - 1]
  }

  /** The surname used in the citation key: the text before the first comma
      of `authors`, trimmed, split on spaces, last piece, lowered. The split
      never yields an empty list, so the "unknown" fallback cannot be taken. */
  function FirstAuthorSurname(authors: string): string
  {
    if |Split(authors, ',')| == 0 then "unknown"
    else Lower(LastWord(Trim(FirstAuthor(authors))))
  }

  function CitationKey(authors: string, year: int): string
  {
    FirstAuthorSurname(authors) + IntToDecimal(year)
  }

  /** Reference::formatBibTeX: the entry type and the key are computed
      first, then the text is built by appends. */
  function FormatBibTeX(r: Reference): string
  {
    BibTeXText(Lower(TypeToString(r.kind)), CitationKey(r.authors, r.year), r)
  }

  function BibTeXText(typeStr: string, key: string, r: Reference): string
  {
    var result := "@" + typeStr + "{" + key + ",\n";
    var result := result + ("  title = {" + r.title + "},\n");
    var result := result + ("  author = {" + r.authors + "},\n");
    var result := result + ("  year = {" + IntToDecimal(r.year) + "}");
    var result := if r.publisher != "" then result + (",\n  publisher = {" + r.publisher + "}") else result;
    var result := if r.url != "" then result + (",\n  url = {" + r.url + "}") else result;
    result + "\n}\n"
  }

  /** Reference::formatHarvard. */
  function FormatHarvard(r: Reference): string
  {
    var result := r.authors + " (" + IntToDecimal(r.year) + ") " + r.title;
    var result := if r.publisher != "" then result + (". " + r.publisher) else result;
    var result := if r.url != "" then result + (". Available at: " + r.url) else result;
    result + "."
  }

  /** Reference::formatDSTU. */
  function FormatDSTU(r: Reference): string
  {
    var result := r.authors + " " + r.title;
    var result := if r.publisher != "" then result + (" / " + r.publisher) else result;
    var result := result + (", " + IntToDecimal(r.year));
    var result := if r.url != "" then result + (". URL: " + r.url) else result;
    result + "."
  }

  // ---------------------------------------------------------------------
  // The citation key

  /** The surname is one lower-case word: no space, no comma, no ASCII
      capital. */
  lemma SurnameIsOneWord(authors: string)
    ensures ' ' !in FirstAuthorSurname(authors) && ',' !in FirstAuthorSurname(authors)
    ensures forall i :: 0 <= i < |FirstAuthorSurname(authors)| ==> !('A' <= FirstAuthorSurname(authors)[i] <= 'Z')
  {
    var first := FirstAuthor(authors);
    assert ',' !in first;
    TrimKeepsAbsent(first, ',');
    LastWordIsOneWord(Trim(first));
  }

  /** The lowered last word of a comma-free name is one lower-case word. */
  lemma LastWordIsOneWord(name: string)
    requires ',' !in name
    ensures ' ' !in Lower(LastWord(name)) && ',' !in Lower(LastWord(name))
    ensures forall i :: 0 <= i < |Lower(LastWord(name))| ==> !('A' <= Lower(LastWord(name))[i] <= 'Z')
  {
    var words := Split(name, ' ');
    SplitKeepsAbsent(name, ' ', ',', |words| - 1);
    LowerKeepsAbsent(LastWord(name), ' ');
    LowerKeepsAbsent(LastWord(name), ',');
  }

  lemma TrimKeepsAbsent(s: string, c: char)
    requires c !in s
    ensures c !in Trim(s)
  {
    var t := TrimStart(s);
    assert t == s[|s| - |t|..];
    var u := TrimEnd(t);
    assert u == t[..|u|];
  }

  lemma {:induction false} SplitKeepsAbsent(s: string, sep: char, c: char, k: nat)
    requires c !in s
    requires k < |Split(s, sep)|
    ensures c !in Split(s, sep)[k]
  {
    if s != [] {
      var rest := Split(s[1..], sep);
      assert c !in s[1..];
      if s[0] == sep {
        if k > 0 {
          SplitKeepsAbsent(s[1..], sep, c, k - 1);
        }
      } else if k == 0 {
        SplitKeepsAbsent(s[1..], sep, c, 0);
        assert s[0] != c;
      } else {
        SplitKeepsAbsent(s[1..], sep, c, k);
      }
    }
  }

  /** Lowering leaves non-letters alone and leaves no capital. */
  lemma LowerKeepsAbsent(s: string, c: char)
    requires c !in s && !('A' <= c <= 'Z') && !('a' <= c <= 'z')
    ensures c !in Lower(s)
    ensures forall i :: 0 <= i < |Lower(s)| ==> !('A' <= Lower(s)[i] <= 'Z')
  {
  }

  /** The same first author in two different years gives two different
      keys: the year printed after the surname tells them apart. */
  lemma KeyTellsYearsApart(authors: string, y1: int, y2: int)
    requires CitationKey(authors, y1) == CitationKey(authors, y2)
    ensures y1 == y2
  {
    var surname := FirstAuthorSurname(authors);
    var a := IntToDecimal(y1);
    var b := IntToDecimal(y2);
    assert |a| == |b|;
    assert a == CitationKey(authors, y1)[|surname|..] == b;
    IntToDecimalInjective(y1, y2);
  }

  /** An empty author list gives a key that is just the year. */
  lemma KeyOfNoAuthors(year: int)
    ensures CitationKey("", year) == IntToDecimal(year)
  {
    var none: string := [];
    assert Split(none, ',') == [none];
    assert Trim(none) == none;
    assert Split(none, ' ') == [none];
    assert FirstAuthorSurname(none) == Lower(none) == none;
    assert none + IntToDecimal(year) == IntToDecimal(year);
  }

  /** Only the first author counts: whatever follows the first comma does
      not change the surname. */
  lemma SurnameOfFirstAuthor(first: string, rest: string)
    requires ',' !in first
    ensures FirstAuthorSurname(first + [','] + rest) == FirstAuthorSurname(first)
  {
    SplitAtFirst(first, rest, ',');
    SplitNoSeparator(first, ',');
    assert FirstAuthor(first + [','] + rest) == first == FirstAuthor(first);
  }

  /** The surname of a name with no whitespace at either end is its last
      space-separated word, lowered. */
  lemma SurnameIsLastWord(given: string, family: string)
    requires ',' !in given && ',' !in family && ' ' !in family
    requires given != [] && !IsSpace(given[0]) && family != [] && !IsSpace(family[|family| - 1])
    ensures FirstAuthorSurname(given + [' '] + family) == Lower(family)
  {
    var name := given + [' '] + family;
    assert name[0] == given[0] && name[|name| - 1] == family[|family| - 1];
    TrimUnpadded(name);
    SplitNoSeparator(name, ',');
    assert FirstAuthor(name) == name;
    SplitLastPart(given, family, ' ');
    assert LastWord(name) == family;
  }

  /** The last part of a split is what follows the last separator. */
  lemma {:induction false} SplitLastPart(a: string, b: string, sep: char)
    requires sep !in b
    ensures |Split(a + [sep] + b, sep)| >= 2
    ensures Split(a + [sep] + b, sep)[|Split(a + [sep] + b, sep)| - 1] == b
  {
    var s := a + [sep] + b;
    if a == [] {
      assert s == [sep] + b && s[1..] == b;
      SplitNoSeparator(b, sep);
    } else {
      assert s[1..] == a[1..] + [sep] + b;
      SplitLastPart(a[1..], b, sep);
    }
  }

  /** The key of "Jane Doe, John Smith" (2023) is "doe2023". */
  lemma KeyExample(authors: string)
    requires authors == "Jane Doe, John Smith"
    ensures CitationKey(authors, 2023) == "doe" + "2023"
  {
    ExampleSurname(authors);
    ExampleYear();
  }

  lemma ExampleSurname(authors: string)
    requires authors == "Jane Doe, John Smith"
    ensures FirstAuthorSurname(authors) == "doe"
  {
    var first, others := "Jane Doe", " John Smith";
    assert authors == first + [','] + others;
    SurnameOfFirstAuthor(first, others);
    ExampleFirstName(first);
  }

  lemma ExampleFirstName(first: string)
    requires first == "Jane Doe"
    ensures FirstAuthorSurname(first) == "doe"
  {
    var given, family := "Jane", "Doe";
    assert first == given + [' '] + family;
    SurnameIsLastWord(given, family);
    assert Lower(family) == "doe";
  }

  lemma ExampleYear()
    ensures IntToDecimal(2023) == "2023"
  {
    assert NatToDecimal(2) == "2";
    assert NatToDecimal(20) == NatToDecimal(2) + ['0'];
    assert NatToDecimal(202) == NatToDecimal(20) + ['2'];
    assert NatToDecimal(2023) == NatToDecimal(202) + ['3'];
  }

  /** A text with no whitespace at either end is its own trim. */
  lemma TrimUnpadded(s: string)
    requires s != [] && !IsSpace(s[0]) && !IsSpace(s[|s| - 1])
    ensures Trim(s) == s
  {
  }

  // ---------------------------------------------------------------------
  // BibTeX as an entry with a list of fields

  type Field = (string, string)

  /** One `name = {value}` line of an entry. */
  function FieldLine(f: Field): string
  {
    "  " + f.0 + " = {" + f.1 + "}"
  }

  /** The field lines, separated by ",\n". */
  function FieldLines(fields: seq<Field>): string
  {
    if |fields| == 0 then ""
    else if |fields| == 1 then FieldLine(fields[0])
    else FieldLine(fields[0]) + ",\n" + FieldLines(fields[1..])
  }

  /** A BibTeX entry: `@type{key,`, the field lines, and a closing brace on
      its own line. */
  function Entry(entryType: string, key: string, fields: seq<Field>): string
  {
    "@" + entryType + "{" + key + ",\n" + FieldLines(fields) + "\n}\n"
  }

  function FieldNames(fields: seq<Field>): (names: seq<string>)
    ensures |names| == |fields|
  {
    seq(|fields|, i requires 0 <= i < |fields| => fields[i].0)
  }

  /** The fields a reference contributes: title, author and year always,
      then publisher and url when they are not empty. */
  function BibFields(r: Reference): seq<Field>
  {
    [("title", r.title), ("author", r.authors), ("year", IntToDecimal(r.year))]
    + (if r.publisher != "" then [("publisher", r.publisher)] else [])
    + (if r.url != "" then [("url", r.url)] else [])
  }

  /** Appending a field to a non-empty list appends ",\n" and its line. */
  lemma {:induction false} FieldLinesSnoc(fields: seq<Field>, f: Field)
    requires |fields| >= 1
    ensures FieldLines(fields + [f]) == FieldLines(fields) + ",\n" + FieldLine(f)
  {
    assert (fields + [f])[1..] == fields[1..] + [f];
    if |fields| > 1 {
      FieldLinesSnoc(fields[1..], f);
    }
  }

  /** The three fields every entry has, as the source writes them. */
  lemma MandatoryLines(r: Reference)
    ensures FieldLines([("title", r.title), ("author", r.authors), ("year", IntToDecimal(r.year))])
         == ("  title = {" + r.title + "},\n") + ("  author = {" + r.authors + "},\n") + ("  year = {" + IntToDecimal(r.year) + "}")
  {
    var base := [("title", r.title), ("author", r.authors), ("year", IntToDecimal(r.year))];
    assert base[1..][1..] == [base[2]];
    var l1 := FieldLine(base[0]);
    var l2 := FieldLine(base[1]);
    var l3 := FieldLine(base[2]);
    assert FieldLines([base[2]]) == l3;
    assert FieldLines(base[1..]) == l2 + ",\n" + l3;
    assert FieldLines(base) == l1 + ",\n" + (l2 + ",\n" + l3);
    assert l1 + ",\n" == "  title = {" + r.title + "},\n";
    assert l2 + ",\n" == "  author = {" + r.authors + "},\n";
    assert l3 == "  year = {" + IntToDecimal(r.year) + "}";
    Reassociate3(l1 + ",\n", l2 + ",\n", l3);
  }

  lemma Reassociate3(a: string, b: string, c: string)
    ensures a + (b + c) == a + b + c
    ensures (a + b) + c == a + (b + c)
  {
  }

  lemma Reassociate(h: string, a: string, d: string, e: string, t: string)
    ensures h + a + d + e + t == h + (a + d + e) + t
  {
  }

  /** The optional field as the source appends it. */
  lemma OptionalLine(fields: seq<Field>, name: string, value: string)
    requires |fields| >= 1
    ensures FieldLines(fields + [(name, value)]) == FieldLines(fields) + (",\n  " + name + " = {" + value + "}")
  {
    FieldLinesSnoc(fields, (name, value));
    GlueFieldLine(name, value);
  }

  lemma GlueFieldLine(name: string, value: string)
    ensures ",\n" + FieldLine((name, value)) == ",\n  " + name + " = {" + value + "}"
  {
    assert ",\n" + "  " == ",\n  ";
  }

  /** formatBibTeX writes the entry whose type is the lowered type name,
      whose key is the citation key and whose fields are BibFields. */
  lemma BibTeXIsEntry(r: Reference)
    ensures FormatBibTeX(r) == Entry(Lower(TypeToString(r.kind)), CitationKey(r.authors, r.year), BibFields(r))
  {
    BibTeXTextIsEntry(Lower(TypeToString(r.kind)), CitationKey(r.authors, r.year), r);
  }

  lemma BibTeXTextIsEntry(typeStr: string, key: string, r: Reference)
    ensures BibTeXText(typeStr, key, r) == Entry(typeStr, key, BibFields(r))
  {
    var base := [("title", r.title), ("author", r.authors), ("year", IntToDecimal(r.year))];
    var head := "@" + typeStr + "{" + key + ",\n";
    var mandatory := ("  title = {" + r.title + "},\n") + ("  author = {" + r.authors + "},\n") + ("  year = {" + IntToDecimal(r.year) + "}");
    MandatoryLines(r);
    var pub := if r.publisher != "" then [("publisher", r.publisher)] else [];
    var pubLine := if r.publisher != "" then ",\n  publisher = {" + r.publisher + "}" else "";
    assert FieldLines(base + pub) == mandatory + pubLine by {
      if r.publisher != "" {
        OptionalLine(base, "publisher", r.publisher);
        assert ",\n  " + "publisher" + " = {" == ",\n  publisher = {";
      } else {
        assert base + pub == base;
      }
    }
    var u := if r.url != "" then [("url", r.url)] else [];
    var urlLine := if r.url != "" then ",\n  url = {" + r.url + "}" else "";
    assert FieldLines(base + pub + u) == mandatory + pubLine + urlLine by {
      if r.url != "" {
        OptionalLine(base + pub, "url", r.url);
        assert ",\n  " + "url" + " = {" == ",\n  url = {";
      } else {
        assert base + pub + u == base + pub;
      }
    }
    assert BibFields(r) == base + pub + u;
    Reassociate(head, mandatory, pubLine, urlLine, "\n}\n");
    var p1, p2, p3 := "  title = {" + r.title + "},\n", "  author = {" + r.authors + "},\n", "  year = {" + IntToDecimal(r.year) + "}";
    var r3 := head + p1 + p2 + p3;
    assert r3 == head + mandatory by {
      Reassociate3(head, p1, p2);
      Reassociate3(head, p1 + p2, p3);
    }
    var r4 := if r.publisher != "" then r3 + pubLine else r3;
    assert r4 == r3 + pubLine;
    var r5 := if r.url != "" then r4 + urlLine else r4;
    assert r5 == r4 + urlLine;
    assert BibTeXText(typeStr, key, r) == r5 + "\n}\n";
  }

  /** The title, author and year fields come first, in that order; a
      publisher field and a url field are present exactly when the reference
      has a non-empty publisher or url, and the url comes last. */
  lemma BibFieldsPresence(r: Reference)
    ensures FieldNames(BibFields(r))[..3] == ["title", "author", "year"]
    ensures BibFields(r)[..3] == [("title", r.title), ("author", r.authors), ("year", IntToDecimal(r.year))]
    ensures "publisher" in FieldNames(BibFields(r)) <==> r.publisher != ""
    ensures "url" in FieldNames(BibFields(r)) <==> r.url != ""
    ensures r.url != "" ==> BibFields(r)[|BibFields(r)| - 1] == ("url", r.url)
  {
    var names := FieldNames(BibFields(r));
    assert names[0] == "title" && names[1] == "author" && names[2] == "year";
    if r.publisher != "" {
      assert names[3] == "publisher";
    }
    if r.url != "" {
      assert names[|names| - 1] == "url";
    }
  }

  // ---------------------------------------------------------------------
  // Harvard and DSTU as sentences

  /** The sentences of a Harvard citation: `authors (year) title`, then the
      publisher, then `Available at: url`, each only when not empty. */
  function HarvardSentences(r: Reference): seq<string>
  {
    [r.authors + " (" + IntToDecimal(r.year) + ") " + r.title]
    + (if r.publisher != "" then [r.publisher] else [])
    + (if r.url != "" then ["Available at: " + r.url] else [])
  }

  /** A Harvard citation is its sentences separated by ". " and closed by ".". */
  lemma HarvardIsSentences(r: Reference)
    ensures FormatHarvard(r) == Join(HarvardSentences(r), ". ") + "."
  {
    var head := r.authors + " (" + IntToDecimal(r.year) + ") " + r.title;
    var parts := HarvardSentences(r);
    JoinUpToThree(parts, ". ");
    if r.url != "" {
      AvailableAt(r.url);
      if r.publisher != "" {
        assert parts == [head, r.publisher, "Available at: " + r.url];
      } else {
        assert parts == [head, "Available at: " + r.url];
      }
    } else if r.publisher != "" {
      assert parts == [head, r.publisher];
    } else {
      assert parts == [head];
    }
  }

  lemma AvailableAt(url: string)
    ensures ". " + ("Available at: " + url) == ". Available at: " + url
  {
    assert ". " + "Available at: " == ". Available at: ";
  }

  /** The sentences of a DSTU citation: the title area (`authors title`,
      ` / publisher` when there is one, `, year`), then `URL: url` when the
      url is not empty. */
  function DstuSentences(r: Reference): seq<string>
  {
    [r.authors + " " + r.title + (if r.publisher != "" then " / " + r.publisher else "") + ", " + IntToDecimal(r.year)]
    + (if r.url != "" then ["URL: " + r.url] else [])
  }

  /** A DSTU citation is its sentences separated by ". " and closed by ".". */
  lemma DstuIsSentences(r: Reference)
    ensures FormatDSTU(r) == Join(DstuSentences(r), ". ") + "."
  {
    JoinUpToThree(DstuSentences(r), ". ");
  }

  /** Joins of one, two and three parts written out. */
  lemma JoinUpToThree(parts: seq<string>, sep: string)
    ensures |parts| == 1 ==> Join(parts, sep) == parts[0]
    ensures |parts| == 2 ==> Join(parts, sep) == parts[0] + sep + parts[1]
    ensures |parts| == 3 ==> Join(parts, sep) == parts[0] + sep + parts[1] + sep + parts[2]
  {
    if |parts| >= 2 {
      assert parts[1..][1..] == parts[2..];
    }
  }
}
