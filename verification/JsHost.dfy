/** What the JavaScript host supplies: the comparison of strings by locale, and the texts of numbers. */
module JsHost {

  /** `localeCompare` orders all strings, possibly with ties between different ones. */
  ghost predicate IsLocaleOrder(compare: (string, string) -> int) {
    && (forall a, b :: compare(a, b) <= 0 <==> compare(b, a) >= 0)
    && (forall a, b, c :: compare(a, b) <= 0 && compare(b, c) <= 0 ==> compare(a, c) <= 0)
  }

  /** The finite doubles and their texts, as characters or as code units. */
  datatype Numbers<T> = Numbers(doubles: set<real>, text: real -> seq<T>)

  /** Different doubles print differently, and none as nothing. */
  ghost predicate TellsApart<T(!new)>(h: Numbers<T>) {
    && (forall x, y :: x in h.doubles && y in h.doubles && h.text(x) == h.text(y) ==> x == y)
    && (forall x :: x in h.doubles ==> h.text(x) != [])
  }

  /** No double prints with this character. */
  ghost predicate NeverPrints<T(!new)>(h: Numbers<T>, unit: T) {
    forall x :: x in h.doubles ==> unit !in h.text(x)
  }

  /** No double prints as one of these words. */
  ghost predicate NeverReads<T(!new)>(h: Numbers<T>, words: set<seq<T>>) {
    forall x :: x in h.doubles ==> h.text(x) !in words
  }
}
