/** The request and response shapes of the form service's filter endpoint, reduced to the fields
    the sync tool reads or writes. */
module QFlowTypes {
  import opened Wrappers

  /** One sort criterion of a filter request. `sortType` is omitted from the JSON when empty. */
  datatype FilterSort = FilterSort(queId: int, isAscend: bool, queType: int, sortType: string)

  /** The only sort the tool ever sends: question 3 (the last-update time, a date question of
      type 4), newest first. */
  const UpdateTimeSorter: FilterSort := FilterSort(3, false, 4, "")

  /** The filter object of a request. `queries` stands for a JSON array of query terms and
      `queryKey` for a JSON value that may be null (`None`). */
  datatype Filter = Filter(
    pageSize: int,
    pageNum: int,
    filterType: int,
    sorts: seq<FilterSort>,
    queries: seq<string>,
    queryKey: Option<string>)

  datatype FilterRequest = FilterRequest(filter: Filter)

  /** One entry of an answer's `values`; only `value` is ever read. */
  datatype AnswerValue = AnswerValue(dataValue: string, value: string)

  /** One answered question of a submission. */
  datatype Answer = Answer(queTitle: string, values: seq<AnswerValue>)

  /** One submission. */
  datatype Item = Item(answers: seq<Answer>, applyId: int)

  datatype ResponseData = ResponseData(list: seq<Item>, pageNum: int, pageSize: int, total: int)

  /** A decoded response. `code` and `message` are decoded but never inspected by the tool. */
  datatype FilterResponse = FilterResponse(code: int, message: string, data: ResponseData)
}
