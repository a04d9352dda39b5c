/** The records that flow through the pipeline. */
module Records {

  /** The sentinel for a value that could not be determined: a missing
      byline (app.py:48) or a failed classification (app.py:87). */
  const NotAvailable := "N/A"

  /** One scraped news item before classification: the dictionary built on
      app.py:50-55. */
  datatype Article = Article(title: string, media: string, journalist: string, keyword: string)

  /** One classified item: the dictionary built on app.py:149-154, a row of
      the result table with columns Category, Media, Journalist, Synopsis. */
  datatype Row = Row(category: string, media: string, journalist: string, synopsis: string)
}
