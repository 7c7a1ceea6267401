/** The absent-or-present value the scraper gets back from lookups such as
    `soup.find(...)`, which answer with an element or with nothing. */
module Optional {

  datatype Option<+T> = None | Some(value: T)
}
