/** The names and paths `NSPersistentContainer.makeTest` derives for a
    test's on-disk store: the resolved test name, the store file path and the
    three SQLite files it deletes before loading. Creating the directory,
    deleting the files and loading the store are I/O and are not modelled. */
module TestStore {
  import Text
  import StoreName

  /** The suffixes of the files removed before the store is loaded: the store
      itself and its shared-memory and write-ahead-log side files. */
  const StaleFileSuffixes: seq<string> := ["", "-shm", "-wal"]

  const StoreExtension: string := ".sqlite"

  /** The test name used for the container and the store: an explicit
      `testName` when one is given, otherwise `<fileID>-<function>`. It is
      never empty. */
  function ResolvedTestName(testName: string, fileID: string, functionName: string): (r: string)
    ensures r != []
    ensures testName != [] ==> r == testName
    ensures testName == [] ==> r == fileID + "-" + functionName
  {
    if testName == [] then fileID + "-" + functionName else testName
  }

  /** The path of `component` inside the directory `directory`, joined by one
      separator: the result extends `directory`, ends with `/` followed by
      `component`, and never doubles a separator that `directory` already ends with. */
  function AppendingPathComponent(directory: string, component: string): (r: string)
    ensures directory <= r
    ensures Text.EndsWith(r, "/" + component)
    ensures |r| == |directory| + |component| + (if directory != [] && directory[|directory| - 1] == '/' then 0 else 1)
  {
    if directory != [] && directory[|directory| - 1] == '/' then directory + component
    else directory + "/" + component
  }

  /** The last component of a path: everything after its last `/`. */
  function LastPathComponent(path: string): (r: string)
    ensures '/' !in r
    ensures Text.EndsWith(path, r)
    ensures |r| < |path| ==> path[|path| - |r| - 1] == '/'
  {
    if path == [] || path[|path| - 1] == '/' then []
    else LastPathComponent(path[..|path| - 1]) + [path[|path| - 1]]
  }

  lemma {:induction false} LastComponentAfterSeparator(prefix: string, component: string)
    requires '/' !in component
    ensures LastPathComponent(prefix + "/" + component) == component
  {
    if component != [] {
      var init := component[..|component| - 1];
      assert (prefix + "/" + component)[..|prefix + "/" + component| - 1] == prefix + "/" + init;
      assert component == init + [component[|component| - 1]];
      LastComponentAfterSeparator(prefix, init);
    }
  }

  /** Appending a component that has no `/` and then taking the last
      component gives the component back. */
  lemma AppendedComponentIsLast(directory: string, component: string)
    requires '/' !in component
    ensures LastPathComponent(AppendingPathComponent(directory, component)) == component
  {
    if directory != [] && directory[|directory| - 1] == '/' {
      var prefix := directory[..|directory| - 1];
      assert directory + component == prefix + "/" + component;
      LastComponentAfterSeparator(prefix, component);
    } else {
      LastComponentAfterSeparator(directory, component);
    }
  }

  /** The store path `<directory>/<storeName>.sqlite`: it extends the
      directory and ends with the store name and the `.sqlite` extension. */
  function StorePath(directory: string, storeName: string): (r: string)
    ensures directory <= r
    ensures Text.EndsWith(r, "/" + storeName + StoreExtension)
  {
    assert "/" + storeName + StoreExtension == "/" + (storeName + StoreExtension);
    AppendingPathComponent(directory, storeName + StoreExtension)
  }

  /** The files removed before loading: the store path followed by each stale
      suffix, in order. There are exactly three, all distinct, the first is
      the store itself, and each one begins with the store path. */
  function StaleFilePaths(storePath: string): (paths: seq<string>)
    ensures |paths| == 3
    ensures paths[0] == storePath
    ensures forall i | 0 <= i < |paths| :: paths[i] == storePath + StaleFileSuffixes[i]
    ensures forall i, j | 0 <= i < j < |paths| :: paths[i] != paths[j]
  {
    var paths := seq(|StaleFileSuffixes|, i requires 0 <= i < |StaleFileSuffixes| => storePath + StaleFileSuffixes[i]);
    assert paths[1][|storePath| + 1] == 's' && paths[2][|storePath| + 1] == 'w';
    assert |paths[0]| < |paths[1]| && |paths[0]| < |paths[2]|;
    paths
  }

  /** Everything `makeTest` derives before touching the file system. */
  datatype TestStoreLayout = TestStoreLayout(
    containerName: string,
    testDirectory: string,
    storePath: string,
    staleFiles: seq<string>)

  /** The layout `makeTest` derives from its arguments; `temporaryDirectory`
      stands for `NSTemporaryDirectory()`. */
  function MakeTestLayout(alnum: char -> bool, temporaryDirectory: string, testName: string,
                          fileID: string, functionName: string, subDirectory: string): (layout: TestStoreLayout)
    ensures layout.containerName != []
    ensures layout.testDirectory == AppendingPathComponent(temporaryDirectory, subDirectory)
    ensures layout.storePath == StorePath(layout.testDirectory, StoreName.SanitizedName(alnum, layout.containerName))
    ensures temporaryDirectory <= layout.testDirectory <= layout.storePath
    ensures Text.EndsWith(layout.testDirectory, "/" + subDirectory)
    ensures Text.EndsWith(layout.storePath, StoreExtension)
    ensures layout.staleFiles == StaleFilePaths(layout.storePath)
  {
    var resolved := ResolvedTestName(testName, fileID, functionName);
    var testDirectory := AppendingPathComponent(temporaryDirectory, subDirectory);
    var storeName := StoreName.SanitizedName(alnum, resolved);
    var storePath := StorePath(testDirectory, storeName);
    Text.EndsWithSuffix(storePath, "/" + storeName, StoreExtension);
    TestStoreLayout(resolved, testDirectory, storePath, StaleFilePaths(storePath))
  }

  /** The container keeps the resolved, unsanitized test name; the store file
      lies directly inside the test directory and is named after the sanitized
      name (which cannot contain `/`); and the stale files are the store path
      with the three suffixes. */
  lemma MakeTestLayoutProperties(alnum: char -> bool, temporaryDirectory: string, testName: string,
                                 fileID: string, functionName: string, subDirectory: string)
    requires StoreName.IsAlphanumericTable(alnum)
    ensures var layout := MakeTestLayout(alnum, temporaryDirectory, testName, fileID, functionName, subDirectory);
      var name := StoreName.SanitizedName(alnum, layout.containerName);
      && layout.containerName == (if testName == [] then fileID + "-" + functionName else testName)
      && layout.testDirectory <= layout.storePath
      && LastPathComponent(layout.storePath) == name + StoreExtension
      && |layout.storePath| == |layout.testDirectory| + |name + StoreExtension|
           + (if layout.testDirectory[|layout.testDirectory| - 1] == '/' then 0 else 1)
      && |layout.staleFiles| == 3
      && (forall i | 0 <= i < 3 :: layout.staleFiles[i] == layout.storePath + StaleFileSuffixes[i])
  {
    var layout := MakeTestLayout(alnum, temporaryDirectory, testName, fileID, functionName, subDirectory);
    var name := StoreName.SanitizedName(alnum, layout.containerName);
    StoreName.SanitizedNameWellFormed(alnum, layout.containerName);
    StoreFileIsLastComponent(layout.testDirectory, name);
  }

  /** A store named without `/` is the last component of its store path. */
  lemma StoreFileIsLastComponent(directory: string, storeName: string)
    requires '/' !in storeName
    ensures LastPathComponent(StorePath(directory, storeName)) == storeName + StoreExtension
  {
    assert '/' !in storeName + StoreExtension by {
      assert '/' !in StoreExtension;
    }
    AppendedComponentIsLast(directory, storeName + StoreExtension);
  }
}
