/** What opening and reading a saved page can give, and the errors that
    escape the extraction functions. */
module SavedFiles {

  /** `open(path, "r", encoding="utf-8")` then `read()`: the file does not
      exist (`FileNotFoundError`, the one error the extraction functions
      catch); it exists but cannot be read (a directory, no permission, bytes
      that are not UTF-8); or its text parses to `content`. */
  datatype SavedFile<+T> = NotFound | Unreadable | Parsed(content: T)

  /** An exception that nothing in the scraper catches: a read error other
      than `FileNotFoundError`, or the `KeyError` of `anchor["href"]` on an
      anchor without one. */
  datatype ScrapeError = ReadFailed | MissingHref
}
