/**
 * The records the services store and the requests they take.
 * Timestamps are abstract instants (`nat`, larger is later); prices are whole
 * numbers of the smallest currency unit instead of float64.
 */
module Records {
  import opened Wrappers

  datatype User = User(
    id: string,
    username: string,
    email: string,
    fullName: string,
    isActive: bool,
    createdAt: nat,
    updatedAt: nat)

  datatype CreateUserRequest = CreateUserRequest(username: string, email: string, fullName: string)

  /** A partial patch: a None field is left as it is. */
  datatype UpdateUserRequest = UpdateUserRequest(
    id: string,
    username: Option<string>,
    email: Option<string>,
    fullName: Option<string>,
    isActive: Option<bool>)

  datatype ListUsersRequest = ListUsersRequest(
    page: int,
    pageSize: int,
    sortBy: Option<string>,
    filter: Option<string>)

  datatype Product = Product(
    id: string,
    name: string,
    description: string,
    price: int,
    quantity: int,
    category: string,
    createdAt: nat,
    updatedAt: nat)

  datatype CreateProductRequest = CreateProductRequest(
    name: string,
    description: string,
    price: int,
    quantity: int,
    category: string)

  datatype SearchProductsRequest = SearchProductsRequest(
    query: Option<string>,
    category: Option<string>,
    minPrice: Option<int>,
    maxPrice: Option<int>,
    page: int,
    pageSize: int)
}
