/** Rows of the three relations the dashboard loads, and the keyed rows derived from them. */
module Tables {

  datatype Option<T> = None | Some(value: T)

  /** The metric picked with the sidebar radio button. */
  datatype Metric = Stars | Forks

  /** One row of the language-by-year or of the topic-by-year table;
      `category` holds the language or the topic. */
  datatype Stat = Stat(year: int, category: string, stars: nat, forks: nat)

  /** One row of the repository list (its topics column is not modelled). */
  datatype Repo = Repo(name: string, language: string, stars: nat, forks: nat, selectedYear: int)

  function StatValue(s: Stat, m: Metric): nat {
    match m
    case Stars => s.stars
    case Forks => s.forks
  }

  function RepoValue(r: Repo, m: Metric): nat {
    match m
    case Stars => r.stars
    case Forks => r.forks
  }

  /** The grouping key `['year', category]`. */
  datatype YearCat = YearCat(year: int, category: string)

  /** A metric value under a key: a row projected onto its grouping key, or one group of a group-and-sum. */
  datatype Entry<K> = Entry(key: K, value: nat)
}
