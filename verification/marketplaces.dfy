/** The two marketplaces a tracked product can come from. */
module Marketplaces {

  datatype Marketplace = Ozon | Wildberries
}
