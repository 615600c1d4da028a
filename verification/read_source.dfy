/** What reading a line-oriented source yields: the lines delivered, in order, and
    whether the reader then failed with an I/O error instead of reaching the end. The
    file or URL behind the source is not modelled. */
module ReadSource {

  datatype Reading = Reading(lines: seq<string>, failed: bool)
}
