/** The record shape of the loaded dataset (src/utils/types/dataType.ts), reduced to
    the fields the table page's view-state logic reads. */
module DataType {

  /** One entry of `data_items`. Every field of the source record is text. The five
      fields below are the ones the filter and the sort read; the twenty others
      (addresses, phone, DOT and MC numbers, ...) are carried along unread. */
  datatype Item = Item(
    createdDt: string,
    dataSourceModifiedDt: string,
    entityType: string,
    legalName: string,
    dbaName: string,
    otherFields: seq<string>)

  /** The three columns whose headers carry a sort label. */
  datatype SortKey = CreatedDt | DataSourceModifiedDt | LegalName

  /** `item[property]` for a sortable property. */
  function KeyOf(item: Item, key: SortKey): string
  {
    match key
    case CreatedDt => item.createdDt
    case DataSourceModifiedDt => item.dataSourceModifiedDt
    case LegalName => item.legalName
  }
}
