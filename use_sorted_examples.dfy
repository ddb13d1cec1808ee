/** The usage examples in the documentation of `src/use_sorted.rs`, stated
    about the model. */
module UseSortedExamples {
  import opened Ordering
  import opened StableSort
  import opened SortedView

  const Numbers: seq<int> := [10, 3, 5, 7, 2, 1, 8, 6, 9, 4]
  const NumbersSorted: seq<int> := [1, 2, 3, 4, 5, 6, 7, 8, 9, 10]

  lemma NumbersSortedAscending()
    ensures Ascending(NumbersSorted)
  {
  }

  lemma NumbersElements()
    ensures multiset(Numbers) == multiset{1, 2, 3, 4, 5, 6, 7, 8, 9, 10}
  {
  }

  lemma NumbersSortedElements()
    ensures multiset(NumbersSorted) == multiset{1, 2, 3, 4, 5, 6, 7, 8, 9, 10}
  {
  }

  /** The natural sort of the first example's source (src/use_sorted.rs:20-21). */
  lemma NaturalExample()
    ensures Sort(Numbers, IntCmp) == NumbersSorted
  {
    NumbersSortedAscending();
    NumbersElements();
    NumbersSortedElements();
    assert multiset(NumbersSorted) == multiset(Numbers);
    NaturalSortCharacterized(Numbers, NumbersSorted);
  }

  /** `use_sorted(vec![10, 3, 5, 7, 2, 1, 8, 6, 9, 4])`. */
  method NaturalDemo() returns (sorted: array<int>)
    ensures sorted[..] == NumbersSorted
  {
    var source := new int[] [10, 3, 5, 7, 2, 1, 8, 6, 9, 4];
    assert source[..] == Numbers;
    IntCmpIsTotalOrder();
    sorted := UseSorted(source, IntCmp);
    NaturalExample();
  }

  /** The `Person` record of the second example. */
  datatype Person = Person(name: string, age: int)

  /** The key function `|person: &Person| person.age`. */
  function Age(p: Person): int {
    p.age
  }

  /** The compare function `|p1, p2| p1.age.cmp(&p2.age)`. */
  function CompareAges(p1: Person, p2: Person): Ordering {
    IntCmp(p1.age, p2.age)
  }

  lemma CompareAgesIsTotalPreorder()
    ensures IsTotalPreorder(CompareAges)
  {
  }

  const John := Person("John", 40)
  const Jane := Person("Jane", 20)
  const Joe := Person("Joe", 30)
  const Jenny := Person("Jenny", 22)

  const People: seq<Person> := [John, Jane, Joe, Jenny]
  const PeopleByAge: seq<Person> := [Jane, Jenny, Joe, John]

  lemma PeopleByAgeSorted()
    ensures SortedByKey(PeopleByAge, Age)
  {
  }

  lemma PeopleAgesDistinct()
    ensures forall y, z | y in People && z in People && Age(y) == Age(z) :: y == z
  {
  }

  lemma PeopleElements()
    ensures multiset(People) == multiset{John, Jane, Joe, Jenny}
  {
  }

  lemma PeopleByAgeElements()
    ensures multiset(PeopleByAge) == multiset{John, Jane, Joe, Jenny}
  {
  }

  /** Sorting the example's four persons by age gives Jane (20), Jenny (22),
      Joe (30), John (40) (src/use_sorted.rs:41-64). */
  lemma PersonsByKeyExample()
    ensures Sort(People, KeyCmp(Age)) == PeopleByAge
  {
    PeopleByAgeSorted();
    PeopleAgesDistinct();
    PeopleElements();
    PeopleByAgeElements();
    DistinctKeysSortCharacterized(People, PeopleByAge, Age);
  }

  /** The compare-function form gives the same order as the key form
      (src/use_sorted.rs:60-70). */
  lemma PersonsByCompareExample()
    ensures Sort(People, CompareAges) == PeopleByAge
  {
    forall a, b
      ensures CompareAges(a, b) == KeyCmp(Age)(a, b)
    {
      KeyCmpAt(Age, a, b);
    }
    SameComparatorSameSort(People, CompareAges, KeyCmp(Age));
    PersonsByKeyExample();
  }

  /** A second person of Joe's age, to show ties. */
  const Jim := Person("Jim", 30)

  /** Persons of the same age keep their input order, whichever comes
      first: the stability `sort`, `sort_by` and `sort_by_key` promise. */
  lemma TiedAgesKeepOrder()
    ensures Sort([Joe, Jim], CompareAges) == [Joe, Jim]
    ensures Sort([Jim, Joe], CompareAges) == [Jim, Joe]
  {
    CompareAgesIsTotalPreorder();
    SortOfSorted([Joe, Jim], CompareAges);
    SortOfSorted([Jim, Joe], CompareAges);
  }

  /** `use_sorted_by_key(source.clone(), |person| person.age)` and
      `use_sorted_by(source, |p1, p2| p1.age.cmp(&p2.age))`, which the
      documentation calls equivalent. */
  method PersonsDemo() returns (byKey: array<Person>, byCompare: array<Person>)
    ensures byKey[..] == PeopleByAge
    ensures byCompare[..] == PeopleByAge
  {
    var source := new Person[] [John, Jane, Joe, Jenny];
    assert source[..] == People;
    byKey := UseSortedByKey(source, Age);
    CompareAgesIsTotalPreorder();
    byCompare := UseSortedBy(source, CompareAges);
    PersonsByKeyExample();
    PersonsByCompareExample();
  }
}
