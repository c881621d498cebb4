// The TPC-C tables and their columns, as the benchmark client names them
// (RDSTester/db/table_layouts.py). The driver writes statements over these
// names; they become text only when a statement is rendered.
module TpccSchema {
  import opened PyStr
  import opened SqlClient

  datatype Table = Warehouse | District | Customer | History | NewOrders | Orders | OrderLine | Item | Stock

  function TableName(t: Table): string
  {
    match t
    case Warehouse => "warehouse"
    case District => "district"
    case Customer => "customer"
    case History => "history"
    case NewOrders => "new_orders"
    case Orders => "orders"
    case OrderLine => "order_line"
    case Item => "item"
    case Stock => "stock"
  }

  datatype Column =
    | WId | WName | WStreet1 | WStreet2 | WCity | WState | WZip | WTax | WYtd
    | SIId | SWId | SQuantity | SDist01 | SDist02 | SDist03 | SDist04 | SDist05 | SDist06 | SDist07
    | SDist08 | SDist09 | SDist10 | SYtd | SOrderCnt | SRemoteCnt | SData
    | DId | DWId | DName | DStreet1 | DStreet2 | DCity | DState | DZip | DTax | DYtd | DNextOId
    | CId | CDId | CWId | CLast | CMiddle | CFirst | CStreet1 | CStreet2 | CCity | CState | CZip
    | CPhone | CSince | CCredit | CCreditLim | CDiscount | CBalance | CYtdPayment | CPaymentCnt
    | CDeliveryCnt | CData
    | HCId | HCDId | HCWId | HDId | HWId | HDate | HAmount | HData
    | OId | OCId | ODId | OWId | OEntryD | OCarrierId | OOlCnt | OAllLocal
    | OlOId | OlDId | OlWId | OlNumber | OlIId | OlSupplyWId | OlDeliveryD | OlQuantity | OlAmount | OlDistInfo
    | NoOId | NoDId | NoWId
    | IId | IImId | IName | IPrice | IData

  function ColumnName(c: Column): (n: string)
    ensures |n| > 1
  {
    match c
    case WId => "w_id"
    case WName => "w_name"
    case WStreet1 => "w_street_1"
    case WStreet2 => "w_street_2"
    case WCity => "w_city"
    case WState => "w_state"
    case WZip => "w_zip"
    case WTax => "w_tax"
    case WYtd => "w_ytd"
    case SIId => "s_i_id"
    case SWId => "s_w_id"
    case SQuantity => "s_quantity"
    case SDist01 => "s_dist_01"
    case SDist02 => "s_dist_02"
    case SDist03 => "s_dist_03"
    case SDist04 => "s_dist_04"
    case SDist05 => "s_dist_05"
    case SDist06 => "s_dist_06"
    case SDist07 => "s_dist_07"
    case SDist08 => "s_dist_08"
    case SDist09 => "s_dist_09"
    case SDist10 => "s_dist_10"
    case SYtd => "s_ytd"
    case SOrderCnt => "s_order_cnt"
    case SRemoteCnt => "s_remote_cnt"
    case SData => "s_data"
    case DId => "d_id"
    case DWId => "d_w_id"
    case DName => "d_name"
    case DStreet1 => "d_street_1"
    case DStreet2 => "d_street_2"
    case DCity => "d_city"
    case DState => "d_state"
    case DZip => "d_zip"
    case DTax => "d_tax"
    case DYtd => "d_ytd"
    case DNextOId => "d_next_o_id"
    case CId => "c_id"
    case CDId => "c_d_id"
    case CWId => "c_w_id"
    case CLast => "c_last"
    case CMiddle => "c_middle"
    case CFirst => "c_first"
    case CStreet1 => "c_street_1"
    case CStreet2 => "c_street_2"
    case CCity => "c_city"
    case CState => "c_state"
    case CZip => "c_zip"
    case CPhone => "c_phone"
    case CSince => "c_since"
    case CCredit => "c_credit"
    case CCreditLim => "c_credit_lim"
    case CDiscount => "c_discount"
    case CBalance => "c_balance"
    case CYtdPayment => "c_ytd_payment"
    case CPaymentCnt => "c_payment_cnt"
    case CDeliveryCnt => "c_delivery_cnt"
    case CData => "c_data"
    case HCId => "h_c_id"
    case HCDId => "h_c_d_id"
    case HCWId => "h_c_w_id"
    case HDId => "h_d_id"
    case HWId => "h_w_id"
    case HDate => "h_date"
    case HAmount => "h_amount"
    case HData => "h_data"
    case OId => "o_id"
    case OCId => "o_c_id"
    case ODId => "o_d_id"
    case OWId => "o_w_id"
    case OEntryD => "o_entry_d"
    case OCarrierId => "o_carrier_id"
    case OOlCnt => "o_ol_cnt"
    case OAllLocal => "o_all_local"
    case OlOId => "ol_o_id"
    case OlDId => "ol_d_id"
    case OlWId => "ol_w_id"
    case OlNumber => "ol_number"
    case OlIId => "ol_i_id"
    case OlSupplyWId => "ol_supply_w_id"
    case OlDeliveryD => "ol_delivery_d"
    case OlQuantity => "ol_quantity"
    case OlAmount => "ol_amount"
    case OlDistInfo => "ol_dist_info"
    case NoOId => "no_o_id"
    case NoDId => "no_d_id"
    case NoWId => "no_w_id"
    case IId => "i_id"
    case IImId => "i_im_id"
    case IName => "i_name"
    case IPrice => "i_price"
    case IData => "i_data"
  }

  function TableNames(ts: seq<Table>): (r: seq<string>)
    ensures |r| == |ts| && forall i :: 0 <= i < |ts| ==> r[i] == TableName(ts[i])
  {
    seq(|ts|, i requires 0 <= i < |ts| => TableName(ts[i]))
  }

  function ColumnNames(cs: seq<Column>): (r: seq<string>)
    ensures |r| == |cs| && forall i :: 0 <= i < |cs| ==> r[i] == ColumnName(cs[i])
  {
    seq(|cs|, i requires 0 <= i < |cs| => ColumnName(cs[i]))
  }

  /** The number of columns of each table. */
  function TableWidth(t: Table): nat
  {
    match t
    case Warehouse => 9
    case District => 11
    case Customer => 21
    case History => 8
    case NewOrders => 3
    case Orders => 8
    case OrderLine => 10
    case Item => 5
    case Stock => 17
  }

  /**
   * Every table has an entry in `num_of_cols`, so an insert into it never
   * raises KeyError, and the entry is the table's width.
   */
  lemma TableCounted(t: Table)
    ensures TableName(t) in NumOfCols && NumOfCols[TableName(t)] == TableWidth(t)
  {
  }

  /** No key of `num_of_cols` holds a comma. */
  lemma KeysCommaFree(k: string)
    requires k in NumOfCols
    ensures ',' !in k
  {
  }

  /** No column is named `*`. */
  lemma NotStar(c: Column)
    ensures ColumnName(c) != "*"
  {
  }
}
