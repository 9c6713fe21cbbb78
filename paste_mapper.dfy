/** The MapStruct mapping from the submitted DTO to the entity that Save stores. */
module PasteMapper {
  import opened Common
  import opened Entities

  /** toPaste(pasteData, generatedKey, localDate): the key comes from the generator, the creation
      date from the caller's clock, the end date from the DTO; `id` stays unset and the text is
      not copied (unmapped targets are ignored). */
  function ToPaste(pasteData: PasteData, generatedKey: string, localDate: Date): (p: Paste)
    ensures p.key == generatedKey
    ensures p.createDate == localDate
    ensures p.endDate == pasteData.endDate
    ensures p.id == None
  {
    Paste(None, generatedKey, localDate, pasteData.endDate)
  }

  /** The row depends on the DTO only through its end date: the DTO's text and its own
      createDate never reach the entity. */
  lemma ToPasteDependsOnlyOnEndDate(d1: PasteData, d2: PasteData, key: string, today: Date)
    ensures ToPaste(d1, key, today) == ToPaste(d2, key, today) <==> d1.endDate == d2.endDate
  {
  }
}
