/**
 * The list of Ukrainian state archives the upload form offers, and its
 * search filter (src/lib/archives.ts).
 */
module Archives {
  import opened Text
  import opened Seqs

  datatype Archive = Archive(name: string, abbr: string, category: string)

  /** `ARCHIVES`: every archive's full name, abbreviation and Wikimedia Commons category. */
  const AllArchives: seq<Archive> := [
      Archive("Центральний державний історичний архів України, м. Київ", "ЦДІАК", "Funds of Central State Historical Archives of Ukraine in Kyiv"),
      Archive("Центральний державний історичний архів України, м. Львів", "ЦДІАЛ", "Funds of The Central State Historical Archive in Lviv"),
      Archive("Центральний державний архів вищих органів влади та управління України", "ЦДАВО", "Funds of Central State Archives of Supreme Bodies of Power and Government of Ukraine"),
      Archive("Державний архів Вінницької області", "ДАВіО", "Funds of State Archive of Vinnytsia Oblast"),
      Archive("Державний архів Волинської області", "ДАВоО", "Funds of State Archive of Volyn Oblast"),
      Archive("Державний архів Дніпропетровської області", "ДАДнО", "Funds of State Archive of Dnipropetrovsk Oblast"),
      Archive("Державний архів Донецької області", "ДАДоО", "Funds of State Archive of Donetsk Oblast"),
      Archive("Державний архів Житомирської області", "ДАЖО", "Funds of State Archive of Zhytomyr Oblast"),
      Archive("Державний архів Закарпатської області", "ДАЗкО", "Funds of State Archive of Zakarpattia Oblast"),
      Archive("Державний архів Запорізької області", "ДАЗпО", "Funds of State Archive of Zaporizhzhya Oblast"),
      Archive("Державний архів Івано-Франківської області", "ДАІФО", "Funds of State Archive of Ivano-Frankivsk Oblast"),
      Archive("Державний архів Київської області", "ДАКО", "Funds of State Archive of Kyiv Oblast"),
      Archive("Державний архів міста Києва", "ДАК", "Funds of State Archive of Kyiv"),
      Archive("Державний архів Кіровоградської області", "ДАКрО", "Funds of State Archive of Kirovohrad Oblast"),
      Archive("Державний архів Луганської області", "ДАЛуО", "Funds of State Archive of Luhansk Oblast"),
      Archive("Державний архів Львівської області", "ДАЛО", "Funds of State Archive of Lviv Oblast"),
      Archive("Державний архів Миколаївської області", "ДАМО", "Funds of State Archive of Mykolaiv Oblast"),
      Archive("Державний архів Одеської області", "ДАОО", "Funds of State Archive of Odesa Oblast"),
      Archive("Державний архів Полтавської області", "ДАПО", "Funds of State Archive of Poltava Oblast"),
      Archive("Державний архів Рівненської області", "ДАРО", "Funds of State Archive of Rivne Oblast"),
      Archive("Державний архів Сумської області", "ДАСО", "Funds of State Archive of Sumy Oblast"),
      Archive("Державний архів Тернопільської області", "ДАТО", "Funds of State Archive of Ternopil Oblast"),
      Archive("Державний архів Харківської області", "ДАХО", "Funds of State Archive of Kharkiv Oblast"),
      Archive("Державний архів Херсонської області", "ДАХеО", "Funds of State Archive of Kherson Oblast"),
      Archive("Державний архів Хмельницької області", "ДАХмО", "Funds of State Archive of Khmelnytskyi Oblast"),
      Archive("Державний архів Черкаської області", "ДАЧкО", "Funds of State Archive of Cherkasy Oblast"),
      Archive("Державний архів Чернівецької області", "ДАЧвО", "Funds of State Archive of Chernivtsi Oblast"),
      Archive("Державний архів Чернігівської області", "ДАЧгО", "Funds of State Archive of Chernihiv Oblast"),
      Archive("Державний архів в Автономній Республіці Крим", "ДААРК", "Funds of State Archive in the Autonomous Republic of Crimea")
    ]

  /** The abbreviations are pairwise distinct, so they can key the combobox's list. */
  lemma AbbreviationsDistinct()
    ensures forall i, j :: 0 <= i < j < |AllArchives| ==> AllArchives[i].abbr != AllArchives[j].abbr
  {
  }

  /** Whether an archive's lower-cased name or abbreviation contains the (already lower-cased) query. */
  predicate Matches(a: Archive, q: string) {
    Contains(Lower(a.name), q) || Contains(Lower(a.abbr), q)
  }

  /**
   * The search over any list of archives: those, in their order, whose
   * lower-cased name or abbreviation contains the lower-cased query; the
   * empty query keeps all.
   */
  function Search(list: seq<Archive>, query: string): (r: seq<Archive>)
    ensures Subsequence(r, list)
    ensures forall a :: a in r <==> a in list && Matches(a, Lower(query))
    ensures query == "" ==> r == list
  {
    var q := Lower(query);
    SelectSubsequence(list, a => Matches(a, q));
    if query == "" then
      assert forall a: Archive :: OccursAt(Lower(a.name), q, 0);
      SelectAll(list, a => Matches(a, q));
      Select(list, a => Matches(a, q))
    else
      Select(list, a => Matches(a, q))
  }

  /** `filterArchives`: the search over `ARCHIVES`. */
  function FilterArchives(query: string): seq<Archive> {
    Search(AllArchives, query)
  }

  /** Searching for an archive's own abbreviation, in any case, lists it. */
  lemma FindsByAbbreviation(list: seq<Archive>, a: Archive)
    requires a in list
    ensures a in Search(list, Upper(a.abbr)) && a in Search(list, a.abbr)
  {
    LowerOfUpper(a.abbr);
    assert OccursAt(Lower(a.abbr), Lower(a.abbr), 0);
  }
}
