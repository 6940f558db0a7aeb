/** What the updater does to the outside world, and the Python exceptions
    the modelled code lets escape. Each operation returns its result
    together with the actions it performed, in order. */
module Effects {

  /** An exception escaping an operation. */
  datatype PyError =
    | KeyError(key: string)   // `d[key]` on a dict without `key`
    | TypeError               // `None + str`: a card whose directory is unknown
    | AttributeError          // `.append` on a value that is not a list

  /** An action with an effect outside the model's state. */
  datatype Action =
    | FetchCatalog                       // requesting every manifest of the category
    | Download(path: string, url: string) // `common.download_file(path, url)`
    | InstallPackage(package: string)     // `common.update(package)`

}
