/** A catalogue record from the remote database (`QuakeFile`, `TechInfo`); only the
    fields the modelled operations read are kept. */
module QuakeFiles {
  import opened Wrappers

  datatype TechInfo = TechInfo(zipBaseDir: Option<string>, commandLine: Option<string>, startMap: seq<string>)

  datatype QuakeFile = QuakeFile(
    id: string,
    rating: string,
    author: string,
    title: string,
    date: string,
    description: string,
    techInfo: TechInfo,
    installedLocally: bool)
}
