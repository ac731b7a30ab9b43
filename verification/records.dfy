/**
 * The records that flow between the detectors, the resolution step and the
 * renderers: filters (one constructor per filter class), candidate hits,
 * PHI / non-PHI audit entries and the per-document tracker.
 */
module Records {

  datatype Option<+T> = None | Some(value: T)

  datatype Result<+T, +E> = Success(value: T) | Failure(error: E)

  /** A compiled regular expression. Its matches are supplied from outside the model. */
  datatype Pattern = Pattern(source: string)

  /** One `finditer` match: `m.start()` and `m.start() + len(m.group())`. */
  datatype Match = Match(start: int, end: int)

  /**
   * The filter classes. `typ` is the configured type string, which `find_phi`
   * checks together with the class (the constructor).
   */
  datatype Filter =
    | BaseFilter(title: string, typ: string, exclude: bool, phiType: Option<string>)
    | SetFilter(title: string, typ: string, exclude: bool, phiType: Option<string>,
                pos: seq<string>, words: set<string>)
    | RegexFilter(title: string, typ: string, exclude: bool, phiType: Option<string>,
                  regex: Pattern)
    | RegexContextFilter(title: string, typ: string, exclude: bool, phiType: Option<string>,
                         context: string, contextFilter: string, regex: Pattern)
    | PosFilter(title: string, typ: string, exclude: bool, phiType: Option<string>,
                pos: seq<string>)
    | NerFilter(title: string, typ: string, exclude: bool, phiType: Option<string>,
                nerPos: Option<seq<string>>)

  /** A candidate span `[start, stop)` and the filter that produced it. */
  datatype CoordinateEntry = CoordinateEntry(start: int, stop: int, filter: Filter)

  datatype PhiEntry = PhiEntry(start: int, stop: int, word: string, phiType: string)

  datatype NonPhiEntry = NonPhiEntry(start: int, stop: int, word: string, filepath: string)

  datatype DataTracker = DataTracker(text: string, phi: seq<PhiEntry>, nonPhi: seq<NonPhiEntry>)
}
