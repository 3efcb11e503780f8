/**
 * The records the scan produces (app/models.py): one `ResultItem` per media
 * file and one `ResultGroup` per duplicate or near-duplicate set.
 */
module Models {
  import opened Wrappers

  /** `ResultItem`. Every field after `height` is optional and starts as `None`. */
  datatype ResultItem = ResultItem(
    path: string,
    size: int,
    width: Option<int>,
    height: Option<int>,
    mtime: Option<real>,
    sha256: Option<string>,
    phash: Option<string>,
    noise: Option<real>,
    similarity: Option<real>,
    noiseScore: Option<int>)

  /** `ResultItem(path=…, size=…, width=…, height=…)`: the optional fields take their defaults. */
  function NewResultItem(path: string, size: int, width: int, height: int): (it: ResultItem)
    ensures it.path == path && it.size == size && it.width == Some(width) && it.height == Some(height)
    ensures it.mtime == None && it.sha256 == None && it.phash == None
    ensures it.noise == None && it.similarity == None && it.noiseScore == None
  {
    ResultItem(path, size, Some(width), Some(height), None, None, None, None, None, None)
  }

  /** `x or 0` for an optional integer: `None` and 0 both give 0. */
  function OrZero(x: Option<int>): int
  {
    if x.Some? then x.value else 0
  }

  /** The `pixels` property: width times height, a missing or zero side counting as 0. */
  function Pixels(it: ResultItem): (p: int)
    ensures it.width.None? || it.height.None? || it.width == Some(0) || it.height == Some(0) ==> p == 0
    ensures it.width.Some? && it.height.Some? ==> p == it.width.value * it.height.value
    ensures OrZero(it.width) >= 0 && OrZero(it.height) >= 0 ==> p >= 0
  {
    OrZero(it.width) * OrZero(it.height)
  }

  /** `ResultGroup`: a labelled list of items with an optional score. */
  datatype ResultGroup = ResultGroup(kind: string, title: string, items: seq<ResultItem>, score: Option<real>)

  /** `ResultGroup(kind=…, title=…)`: a fresh empty item list and no score. */
  function NewResultGroup(kind: string, title: string): (g: ResultGroup)
    ensures g.kind == kind && g.title == title && g.items == [] && g.score == None
  {
    ResultGroup(kind, title, [], None)
  }
}
