/** The orderings (`orderBy`) and search filters (`where`) the queries use. */
module Criteria {
  import opened Text
  import opened Seqs
  import opened Records

  /** `orderBy: { title: 'asc' }`. */
  function ByTitle(a: Book, b: Book): bool { StrLe(a.title, b.title) }

  /** `orderBy: { name: 'asc' }`. */
  function ByName(a: Student, b: Student): bool { StrLe(a.name, b.name) }

  /** `orderBy: { loanDate: 'desc' }`. */
  function ByLoanDateDesc(a: Loan, b: Loan): bool { a.loanDate >= b.loanDate }

  /** `orderBy: { orderDate: 'desc' }`. */
  function ByOrderDateDesc(a: Order, b: Order): bool { a.orderDate >= b.orderDate }

  /** `orderBy: [{ year: 'desc' }, { name: 'asc' }]`. */
  function ByYearDescThenName(a: SchoolClass, b: SchoolClass): bool
  {
    StrLt(b.year, a.year) || (a.year == b.year && StrLe(a.name, b.name))
  }

  /** Ordering by a string key is a total preorder. */
  lemma StringKeyPreorder<T(!new)>(le: (T, T) -> bool, key: T -> string)
    requires forall a, b :: le(a, b) == StrLe(key(a), key(b))
    ensures TotalPreorder(le)
  {
    forall a, b ensures le(a, b) || le(b, a) {
      StrLeTotal(key(a), key(b));
    }
    forall a, b, c | le(a, b) && le(b, c) ensures le(a, c) {
      StrLeTransitive(key(a), key(b), key(c));
    }
  }

  lemma ByTitlePreorder()
    ensures TotalPreorder(ByTitle)
  {
    StringKeyPreorder(ByTitle, (b: Book) => b.title);
  }

  lemma ByNamePreorder()
    ensures TotalPreorder(ByName)
  {
    StringKeyPreorder(ByName, (s: Student) => s.name);
  }

  lemma ByLoanDateDescPreorder()
    ensures TotalPreorder(ByLoanDateDesc)
  {
  }

  lemma ByOrderDateDescPreorder()
    ensures TotalPreorder(ByOrderDateDesc)
  {
  }

  /** Year descending, then name ascending, is a total preorder. */
  lemma ByYearDescThenNamePreorder()
    ensures TotalPreorder(ByYearDescThenName)
  {
    forall a, b ensures ByYearDescThenName(a, b) || ByYearDescThenName(b, a) {
      StrLeTotal(a.year, b.year);
      StrLeTotal(a.name, b.name);
    }
    forall a, b, c | ByYearDescThenName(a, b) && ByYearDescThenName(b, c)
      ensures ByYearDescThenName(a, c)
    {
      if StrLt(b.year, a.year) && StrLt(c.year, b.year) {
        StrLeTransitive(c.year, b.year, a.year);
        if c.year == a.year { StrLeAntisymmetric(a.year, b.year); }
      } else if a.year == b.year && b.year == c.year {
        StrLeTransitive(a.name, b.name, c.name);
      }
    }
  }

  /** The text part of `searchBooks`'s filter: with a non-blank query, the
      title, the author or the ISBN contains it, ignoring case. */
  predicate BookMatchesText(b: Book, query: string)
  {
    HasSearchText(query) ==>
      ContainsInsensitive(b.title, query) || ContainsInsensitive(b.author, query)
      || ContainsInsensitive(b.isbn, query)
  }

  /** The filter of `searchStudents` and `getStudents`: with a non-blank query,
      the name or the enrollment contains it, ignoring case. */
  predicate StudentMatchesText(s: Student, query: string)
  {
    HasSearchText(query) ==>
      ContainsInsensitive(s.name, query) || ContainsInsensitive(s.enrollment, query)
  }

  /** A blank query keeps every student, as an empty `where` does. */
  lemma BlankQueryKeepsAll(s: Student, b: Book, query: string)
    requires IsBlank(query)
    ensures StudentMatchesText(s, query) && BookMatchesText(b, query)
  {
    HasSearchTextIffNotBlank(query);
  }
}
