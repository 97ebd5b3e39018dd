/** How the two halves meet within one run of `main`: the page that
    `create_new_page` writes is read back by `update_index`. */
module Pipeline {
  import opened Wrappers
  import opened Strings
  import opened Dates
  import opened Naming
  import opened Index

  /** What parsing a written page gives the index: its `<h1>` text and its
      description meta content, both present in every page `write_page`
      writes. */
  function ScanPage(page: Page): (r: ScannedFile)
    ensures r.name == page.file && Complete(r)
    ensures r.heading == Some(page.heading) && r.description == Some(page.description)
  {
    ScannedFile(page.file, Some(page.heading), Some(page.description))
  }

  /** The index recovers the date from any name built by `create_new_page`,
      even when the slug holds hyphens of its own, provided the date holds
      none. */
  lemma DateTokenOfFileName(pageType: string, topic: string, date: string)
    requires '-' !in date
    ensures DateToken(FileName(pageType, topic, date)) == date
  {
    var stem := pageType + "-" + Slug(topic) + "-" + date;
    assert FileName(pageType, topic, date) == stem + "." + "html";
    StemDropsExtension(stem, "html");
    assert stem == (pageType + "-" + Slug(topic)) + ['-'] + date;
    LastSegment(pageType + "-" + Slug(topic), date, '-');
  }

  /** A created page is never mistaken for the index. */
  lemma CreatedPageIsListed(p: PageType, t: Topic, date: string, content: string)
    ensures Eligible(ScanPage(CreateNewPage(p, t, date, content)))
  {
    var name := FileName(TypeName(p), TopicName(t), date);
    assert CreateNewPage(p, t, date, content).file == name;
    TypeNameIsLowerWord(p);
    assert name[0] == TypeName(p)[0];
    assert TypeName(p)[0] != 'i' by {
      match p
      case Tutorial =>
      case News =>
      case Analysis =>
      case Review =>
      case Comparison =>
    }
    assert name[0] != IndexFile[0];
  }

  /** Starting from a directory with no pages, the index lists exactly the
      page just created, with its heading, file name, date and description. */
  lemma FirstPageIndex(p: PageType, t: Topic, date: string, content: string)
    requires '-' !in date
    ensures BuildIndex([ScanPage(CreateNewPage(p, t, date, content))])
         == Success([Entry(
              TopicName(t) + " " + TypeLabel(p),
              FileName(TypeName(p), TopicName(t), date),
              date,
              "Latest " + TypeLabel(p) + " about " + TopicName(t) + " in tech")])
  {
    var page := CreateNewPage(p, t, date, content);
    var f := ScanPage(page);
    CreatedPageIsListed(p, t, date, content);
    CreatedPageHeaders(p, t, date, content);
    DateTokenOfFileName(TypeName(p), TopicName(t), date);
    IndexOfOnePage(f);
  }

  /** For pages created on valid dates, the index's string order on date
      tokens is the calendar order of their creation dates. */
  lemma CreatedPagesInDateOrder(p1: PageType, t1: Topic, d1: Date, p2: PageType, t2: Topic, d2: Date)
    requires ValidDate(d1) && ValidDate(d2)
    ensures Less(DateToken(FileName(TypeName(p1), TopicName(t1), Stamp(d1))),
                 DateToken(FileName(TypeName(p2), TopicName(t2), Stamp(d2))))
        <==> Before(d1, d2)
  {
    DateTokenOfFileName(TypeName(p1), TopicName(t1), Stamp(d1));
    DateTokenOfFileName(TypeName(p2), TopicName(t2), Stamp(d2));
    StampOrder(d1, d2);
  }
}
